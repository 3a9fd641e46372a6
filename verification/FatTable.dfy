/** The file allocation table as a value: walks along the links, chains, the
    soundness of a whole table, and what writing and freeing a chain do to it. */
module FatTable {
  import opened Machine

  /** The file allocation table: one link for each cluster number. */
  type Fat = seq<u32>

  /** Cluster numbers in the order in which a walk visits them. */
  type Path = seq<int>

  const END_OF_CHAIN := 0x0FFF_FFF8
  const BAD_CLUSTER := 0x0FFF_FFF7
  const END_MARK: u32 := 0xFFFF_FFFF
  const UNKNOWN: u32 := 0xFFFF_FFFF

  /** The link of cluster c without its four reserved bits. */
  function Next(f: Fat, c: int): u32
    requires 0 <= c < |f|
  {
    f[c] % 0x1000_0000
  }

  // ----- Walks and chains -----

  ghost predicate InTable(f: Fat, p: Path) {
    forall i | 0 <= i < |p| :: 0 <= p[i] < |f|
  }

  ghost predicate InData(n: int, p: Path) {
    forall i | 0 <= i < |p| :: 2 <= p[i] < n
  }

  /** Each cluster of p links to the one after it. */
  ghost predicate Links(f: Fat, p: Path) {
    && InData(|f|, p)
    && forall i {:trigger Next(f, p[i])} | 0 <= i < |p| - 1 :: Next(f, p[i]) == p[i + 1]
  }

  /** The number a walk from start over the clusters of p ends with. */
  ghost function End(f: Fat, start: int, p: Path): int
    requires InTable(f, p)
  {
    if p == [] then start else Next(f, p[|p| - 1])
  }

  /** The walk from start visits exactly the clusters of p, all of them data
      clusters below n, and then meets a bad-cluster or an end-of-chain mark. */
  ghost predicate Walk(f: Fat, n: int, start: int, p: Path) {
    && n <= |f|
    && InData(n, p)
    && Links(f, p)
    && (p != [] ==> p[0] == start)
    && End(f, start, p) >= BAD_CLUSTER
  }

  ghost predicate Distinct(p: Path) {
    forall i, j | 0 <= i < j < |p| :: p[i] != p[j]
  }

  /** The entries that a loop from start goes through before it meets such a mark, which need
      not all belong to data clusters. */
  ghost predicate Trail(f: Fat, start: int, p: Path) {
    && InTable(f, p)
    && Distinct(p)
    && (forall i | 0 <= i < |p| :: p[i] < BAD_CLUSTER)
    && (forall i {:trigger Next(f, p[i])} | 0 <= i < |p| - 1 :: Next(f, p[i]) == p[i + 1])
    && (p != [] ==> p[0] == start)
    && End(f, start, p) >= BAD_CLUSTER
  }

  /** A walk that starts at p's first cluster and ends at an end-of-chain mark. */
  ghost predicate Chain(f: Fat, n: int, p: Path) {
    && p != []
    && Walk(f, n, p[0], p)
    && End(f, p[0], p) >= END_OF_CHAIN
  }

  ghost predicate Disjoint(p: Path, q: Path) {
    forall c :: !(c in p && c in q)
  }

  ghost function Elems(p: Path): set<int> {
    set i | 0 <= i < |p| :: p[i]
  }

  lemma ElemsIn(p: Path, c: int)
    ensures c in Elems(p) <==> c in p
  {
  }

  lemma {:induction false} NoRepeat(f: Fat, n: int, start: int, p: Path, i: nat, j: nat)
    requires Walk(f, n, start, p) && n <= BAD_CLUSTER
    requires i < j < |p|
    ensures p[i] != p[j]
    decreases |p| - j
  {
    if p[i] == p[j] {
      assert Next(f, p[i]) == p[i + 1];
      if j + 1 < |p| {
        assert Next(f, p[j]) == p[j + 1];
        NoRepeat(f, n, start, p, i + 1, j + 1);
      }
    }
  }

  /** A walk that ends never visits a cluster twice. */
  lemma WalkIsAcyclic(f: Fat, n: int, start: int, p: Path)
    requires Walk(f, n, start, p) && n <= BAD_CLUSTER
    ensures Distinct(p)
  {
    forall i, j | 0 <= i < j < |p| ensures p[i] != p[j] {
      NoRepeat(f, n, start, p, i, j);
    }
  }

  lemma WalkIsTrail(f: Fat, n: int, start: int, p: Path)
    requires Walk(f, n, start, p) && n <= BAD_CLUSTER
    ensures Trail(f, start, p)
  {
    WalkIsAcyclic(f, n, start, p);
  }

  lemma {:induction false} WalksAgree(f: Fat, n: int, start: int, p: Path, q: Path, k: nat)
    requires Walk(f, n, start, p) && Walk(f, n, start, q) && n <= BAD_CLUSTER
    requires k < |p| && k < |q|
    ensures p[k] == q[k]
  {
    if k > 0 {
      WalksAgree(f, n, start, p, q, k - 1);
      assert Next(f, p[k - 1]) == p[k] && Next(f, q[k - 1]) == q[k];
    }
  }

  /** The start alone decides the whole walk, so every loop that walks a chain
      agrees on its length. */
  lemma WalkIsUnique(f: Fat, n: int, start: int, p: Path, q: Path)
    requires Walk(f, n, start, p) && Walk(f, n, start, q) && n <= BAD_CLUSTER
    ensures p == q
  {
    forall k | 0 <= k < |p| && k < |q| ensures p[k] == q[k] {
      WalksAgree(f, n, start, p, q, k);
    }
  }

  lemma {:induction false} DistinctCount(p: Path)
    requires Distinct(p)
    ensures |Elems(p)| == |p|
  {
    if p != [] {
      var k := |p| - 1;
      DistinctCount(p[..k]);
      assert Elems(p) == Elems(p[..k]) + {p[k]};
    }
  }

  lemma {:induction false} BoundedCount(n: int, s: set<int>)
    requires 2 <= n && forall c | c in s :: 2 <= c < n
    ensures |s| <= n - 2
  {
    if n > 2 {
      BoundedCount(n - 1, s - {n - 1});
    } else {
      assert forall c :: c !in s;
      assert s == {};
    }
  }

  lemma DistinctInDataIsShort(n: int, p: Path)
    requires 2 <= n && InData(n, p) && Distinct(p)
    ensures |p| <= n - 2
  {
    DistinctCount(p);
    BoundedCount(n, Elems(p));
  }

  // ----- Walks end without anyone knowing their path -----

  /** What can be read off the table itself: every link of a used cluster leads to
      a used data cluster or is an end mark, and no two used clusters share a successor. */
  ghost predicate WellLinked(f: Fat, n: int) {
    && 2 <= n <= |f|
    && n <= BAD_CLUSTER
    && (forall c | 2 <= c < n && f[c] != 0 ::
          Next(f, c) >= BAD_CLUSTER || (2 <= Next(f, c) < n && f[Next(f, c)] != 0))
    && (forall c, d | 2 <= c < n && 2 <= d < n && f[c] != 0 && f[d] != 0 ::
          Next(f, c) == Next(f, d) && Next(f, c) < n ==> c == d)
  }

  ghost predicate IsHead(f: Fat, n: int, h: int)
    requires n <= |f|
  {
    2 <= h < n && f[h] != 0 && forall c | 2 <= c < n && f[c] != 0 :: Next(f, c) != h
  }

  lemma LinksExtend(f: Fat, p: Path, c: int)
    requires Links(f, p) && p != [] && 2 <= c < |f|
    requires Next(f, p[|p| - 1]) == c
    ensures Links(f, p + [c])
  {
    var longer := p + [c];
    forall i | 0 <= i < |longer| - 1 ensures Next(f, longer[i]) == longer[i + 1] {
      assert longer[i] == p[i];
      if i < |p| - 1 { assert Next(f, p[i]) == p[i + 1]; }
    }
  }

  lemma NextIsNew(f: Fat, n: int, h: int, p: Path)
    requires WellLinked(f, n) && IsHead(f, n, h)
    requires p != [] && p[0] == h && InData(n, p) && Links(f, p) && Distinct(p)
    requires forall i | 0 <= i < |p| :: f[p[i]] != 0
    ensures forall i | 0 <= i < |p| :: p[i] != Next(f, p[|p| - 1])
  {
    forall i | 0 <= i < |p| ensures p[i] != Next(f, p[|p| - 1]) {
      if i > 0 {
        assert Next(f, p[i - 1]) == p[i];
      }
    }
  }

  /** From a head of a well-linked table the walk never comes back to a visited
      cluster; the clusters not yet visited are the measure, so it ends. */
  lemma {:induction false} WalkEnds(f: Fat, n: int, h: int, p: Path) returns (q: Path)
    requires WellLinked(f, n) && IsHead(f, n, h)
    requires p != [] && p[0] == h && InData(n, p) && Links(f, p) && Distinct(p)
    requires forall i | 0 <= i < |p| :: f[p[i]] != 0
    ensures q != [] && Walk(f, n, h, q)
    decreases n - |p|
  {
    var next := Next(f, p[|p| - 1]);
    if next >= BAD_CLUSTER {
      q := p;
    } else {
      NextIsNew(f, n, h, p);
      var longer := p + [next];
      LinksExtend(f, p, next);
      DistinctInDataIsShort(n, longer);
      q := WalkEnds(f, n, h, longer);
    }
  }

  /** Local well-formedness is enough: every walk from a head ends. */
  lemma HeadsHaveWalks(f: Fat, n: int, h: int)
    requires WellLinked(f, n) && IsHead(f, n, h)
    ensures exists p :: p != [] && Walk(f, n, h, p) && |p| <= n - 2
  {
    var p := WalkEnds(f, n, h, [h]);
    WalkIsAcyclic(f, n, h, p);
    DistinctInDataIsShort(n, p);
  }

  // ----- A sound table -----

  ghost predicate Owned(chains: map<int, Path>, c: int) {
    exists h | h in chains :: c in chains[h]
  }

  /** The chains of a table, keyed by their heads, are pairwise disjoint and account
      for every cluster that is neither free nor marked bad. Links carry no reserved
      bits, because the write loop follows raw entries. */
  ghost predicate Sound(f: Fat, n: int, chains: map<int, Path>) {
    && 2 <= n <= |f|
    && n <= BAD_CLUSTER
    && f[0] != 0 && f[1] != 0
    && (forall h | h in chains :: Chain(f, n, chains[h]) && chains[h][0] == h)
    && (forall h, g {:trigger Disjoint(chains[h], chains[g])} | h in chains && g in chains && h != g ::
          Disjoint(chains[h], chains[g]))
    && (forall c {:trigger Owned(chains, c)} | 2 <= c < n && f[c] != 0 :: Next(f, c) == BAD_CLUSTER || Owned(chains, c))
    && (forall c | 2 <= c < n :: f[c] < 0x1000_0000 || Next(f, c) == 0 || Next(f, c) >= BAD_CLUSTER)
  }

  /** The head of the chain that cluster c is on. */
  ghost function OwnerOf(chains: map<int, Path>, c: int): (h: int)
    requires Owned(chains, c)
    ensures h in chains && c in chains[h]
  {
    var h :| h in chains && c in chains[h];
    h
  }

  /** Chain members are used clusters and are not marked bad. */
  lemma ChainIsUsed(f: Fat, n: int, p: Path, i: nat)
    requires Chain(f, n, p) && i < |p| && 2 <= n <= BAD_CLUSTER
    ensures f[p[i]] != 0 && Next(f, p[i]) != BAD_CLUSTER
    ensures i + 1 < |p| ==> Next(f, p[i]) == p[i + 1]
    ensures i + 1 == |p| ==> Next(f, p[i]) >= END_OF_CHAIN
  {
    assert i + 1 < |p| ==> Next(f, p[i]) == p[i + 1];
    assert i + 1 == |p| ==> Next(f, p[i]) == End(f, p[0], p);
  }

  /** The chain a used cluster belongs to and its place on it. */
  lemma ChainOf(f: Fat, n: int, chains: map<int, Path>, c: int) returns (h: int, i: nat)
    requires Sound(f, n, chains) && 2 <= c < n && f[c] != 0 && Next(f, c) != BAD_CLUSTER
    ensures h in chains && Chain(f, n, chains[h]) && chains[h][0] == h
    ensures i < |chains[h]| && chains[h][i] == c
  {
    assert Owned(chains, c);
    h :| h in chains && c in chains[h];
    i :| 0 <= i < |chains[h]| && chains[h][i] == c;
  }

  /** In a sound table a cluster has at most one predecessor. */
  lemma OnePredecessor(f: Fat, n: int, chains: map<int, Path>, c: int, d: int)
    requires Sound(f, n, chains)
    requires 2 <= c < n && 2 <= d < n && f[c] != 0 && f[d] != 0
    requires Next(f, c) == Next(f, d) && Next(f, c) < BAD_CLUSTER
    ensures c == d
  {
    var h, i := ChainOf(f, n, chains, c);
    var g, j := ChainOf(f, n, chains, d);
    var p, q := chains[h], chains[g];
    ChainIsUsed(f, n, p, i);
    ChainIsUsed(f, n, q, j);
    assert p[i + 1] == q[j + 1] && p[i + 1] in p && q[j + 1] in q;
    assert h != g ==> Disjoint(p, q);
    WalkIsAcyclic(f, n, h, p);
  }

  lemma SuccessorIsUsed(f: Fat, n: int, chains: map<int, Path>, c: int)
    requires Sound(f, n, chains) && 2 <= c < n && f[c] != 0 && Next(f, c) < BAD_CLUSTER
    ensures 2 <= Next(f, c) < n && f[Next(f, c)] != 0
  {
    var g, i := ChainOf(f, n, chains, c);
    ChainIsUsed(f, n, chains[g], i);
    ChainIsUsed(f, n, chains[g], i + 1);
  }

  lemma HeadHasNoPredecessor(f: Fat, n: int, chains: map<int, Path>, c: int, h: int)
    requires Sound(f, n, chains) && 2 <= c < n && f[c] != 0 && h in chains
    ensures Next(f, c) != h
  {
    var q := chains[h];
    assert q[0] == h && q[0] in q;
    if Next(f, c) == h {
      var g, i := ChainOf(f, n, chains, c);
      ChainIsUsed(f, n, chains[g], i);
      assert chains[g][i + 1] in chains[g];
      assert g != h ==> Disjoint(chains[g], q);
      WalkIsAcyclic(f, n, h, q);
    }
  }

  /** A sound table is well linked and its chains start at heads, so what the chains
      say can also be read off the table itself. */
  lemma SoundIsWellLinked(f: Fat, n: int, chains: map<int, Path>)
    requires Sound(f, n, chains)
    ensures WellLinked(f, n)
    ensures forall h | h in chains :: IsHead(f, n, h)
  {
    forall c | 2 <= c < n && f[c] != 0 && Next(f, c) < BAD_CLUSTER
      ensures 2 <= Next(f, c) < n && f[Next(f, c)] != 0
    {
      SuccessorIsUsed(f, n, chains, c);
    }
    forall c, d | 2 <= c < n && 2 <= d < n && f[c] != 0 && f[d] != 0
      ensures Next(f, c) == Next(f, d) && Next(f, c) < n ==> c == d
    {
      if Next(f, c) == Next(f, d) && Next(f, c) < n {
        OnePredecessor(f, n, chains, c, d);
      }
    }
    forall h | h in chains ensures IsHead(f, n, h) {
      ChainIsUsed(f, n, chains[h], 0);
      forall c | 2 <= c < n && f[c] != 0 ensures Next(f, c) != h {
        HeadHasNoPredecessor(f, n, chains, c, h);
      }
    }
  }

  lemma HeadIsAHead(f: Fat, n: int, a: map<int, Path>, b: map<int, Path>, h: int)
    requires Sound(f, n, a) && Sound(f, n, b) && h in a
    ensures h in b && a[h] == b[h]
  {
    ChainIsUsed(f, n, a[h], 0);
    var g, i := ChainOf(f, n, b, h);
    if i > 0 {
      ChainIsUsed(f, n, b[g], i - 1);
      HeadHasNoPredecessor(f, n, a, b[g][i - 1], h);
    }
    WalkIsUnique(f, n, h, a[h], b[h]);
  }

  /** The table alone decides its chains. */
  lemma ChainsAreUnique(f: Fat, n: int, a: map<int, Path>, b: map<int, Path>)
    requires Sound(f, n, a) && Sound(f, n, b)
    ensures a == b
  {
    forall h ensures h in a <==> h in b {
      if h in a { HeadIsAHead(f, n, a, b, h); }
      if h in b { HeadIsAHead(f, n, b, a, h); }
    }
    forall h | h in a ensures a[h] == b[h] {
      HeadIsAHead(f, n, a, b, h);
    }
  }

  // ----- Free clusters -----

  ghost function FreeSet(f: Fat, n: int): set<int>
    requires n <= |f|
  {
    set c | 2 <= c < n && f[c] == 0
  }

  /** The free clusters at or above lo, in ascending order. */
  ghost function FreeFrom(f: Fat, lo: nat, n: int): Path
    requires n <= |f|
    decreases n - lo
  {
    if lo >= n then [] else (if f[lo] == 0 then [lo] else []) + FreeFrom(f, lo + 1, n)
  }

  ghost predicate Ascending(p: Path) {
    forall i, j | 0 <= i < j < |p| :: p[i] < p[j]
  }

  /** p lists exactly the free clusters from lo on, in ascending order. */
  ghost predicate ListsFree(f: Fat, lo: nat, n: int, p: Path)
    requires n <= |f|
  {
    && Ascending(p)
    && forall c :: c in p <==> lo <= c < n && f[c] == 0
  }

  lemma AscendingCons(c: int, p: Path)
    requires Ascending(p) && forall d | d in p :: c < d
    ensures Ascending([c] + p)
  {
    var q := [c] + p;
    forall i, j | 0 <= i < j < |q| ensures q[i] < q[j] {
      assert q[j] == p[j - 1] && p[j - 1] in p;
      if i > 0 { assert q[i] == p[i - 1]; }
    }
  }

  lemma {:induction false} FreeFromIsComplete(f: Fat, lo: nat, n: int)
    requires n <= |f|
    ensures ListsFree(f, lo, n, FreeFrom(f, lo, n))
    decreases n - lo
  {
    if lo < n {
      FreeFromIsComplete(f, lo + 1, n);
      if f[lo] == 0 {
        AscendingCons(lo, FreeFrom(f, lo + 1, n));
      } else {
        assert FreeFrom(f, lo, n) == FreeFrom(f, lo + 1, n);
      }
    }
  }

  // ----- What the operations do to the table -----

  /** One turn of the writing loop: cluster cur is linked behind prev, unless that is 0, and
      becomes the end of the chain. */
  ghost function Turned(f: Fat, cur: u32, prev: u32): (g: Fat)
    requires cur < |f| && prev < |f|
    ensures |g| == |f|
  {
    (if prev != 0 then f[prev := cur] else f)[cur := END_MARK]
  }

  /** A write that starts at cluster 0 makes an end mark of entry 0. Whichever cluster comes next
      is not linked behind it, for cluster 0 reads as no cluster in front. */
  lemma WritingFromZero(f: Fat, c: u32)
    requires 0 < c < |f|
    ensures var g := Turned(Turned(f, 0, 0), c, 0);
      && g[0] == END_MARK && g[c] == END_MARK
      && forall d | 0 < d < |f| && d != c :: g[d] == f[d]
  {
  }

  /** f1 is f0 with the clusters of p linked in order, ended by an end mark, and the
      clusters of old that p does not reuse freed; nothing else differs. */
  ghost predicate Relinked(f0: Fat, f1: Fat, p: Path, old_: Path) {
    && |f1| == |f0|
    && InData(|f1|, p)
    && (forall i {:trigger f1[p[i]]} | 0 <= i < |p| :: f1[p[i]] == (if i + 1 < |p| then p[i + 1] else END_MARK))
    && (forall c | 0 <= c < |f0| && c !in p :: f1[c] == if c in old_ then 0 else f0[c])
  }

  /** A chain depends on the entries of its own clusters only. */
  lemma ChainUnaffected(f0: Fat, f1: Fat, n: int, p: Path)
    requires Chain(f0, n, p) && |f1| == |f0|
    requires forall i | 0 <= i < |p| :: f1[p[i]] == f0[p[i]]
    ensures Chain(f1, n, p)
  {
    assert forall i | 0 <= i < |p| :: Next(f1, p[i]) == Next(f0, p[i]);
  }

  lemma RelinkedChain(f0: Fat, f1: Fat, n: int, p: Path, old_: Path)
    requires n <= |f0| && n <= BAD_CLUSTER
    requires p != [] && InData(n, p)
    requires Relinked(f0, f1, p, old_)
    ensures Chain(f1, n, p)
  {
    forall i | 0 <= i < |p| - 1 ensures Next(f1, p[i]) == p[i + 1] {
      assert f1[p[i]] == p[i + 1];
    }
    assert f1[p[|p| - 1]] == END_MARK;
  }

  /** From any of its clusters on a chain is a chain. */
  lemma ChainTail(f: Fat, n: int, p: Path, k: nat)
    requires Chain(f, n, p) && k < |p|
    ensures Chain(f, n, p[k..])
  {
    var q := p[k..];
    forall i | 0 <= i < |q| - 1 ensures Next(f, q[i]) == q[i + 1] {
      assert Next(f, p[k + i]) == p[k + i + 1];
    }
  }

  /** What a write may touch: the clusters of p are free or belong to old_, which is what the
      chain at h has behind the clusters kept; without such a chain p starts one at h. */
  ghost predicate Writable(f: Fat, n: int, chains: map<int, Path>, h: int, kept: Path, p: Path, old_: Path) {
    && n <= |f|
    && p != [] && InData(n, p)
    && (forall i | 0 <= i < |p| :: f[p[i]] == 0 || p[i] in old_)
    && (if h in chains then chains[h] == kept + old_ && old_ != [] && old_[0] == p[0]
        else kept == [] && old_ == [] && p[0] == h && f[h] == 0)
  }

  lemma KeptIsApart(f: Fat, n: int, chains: map<int, Path>, h: int, kept: Path, p: Path, old_: Path, i: nat)
    requires Sound(f, n, chains) && Writable(f, n, chains, h, kept, p, old_) && i < |kept|
    ensures 2 <= kept[i] < n && kept[i] !in p && kept[i] !in old_
  {
    var q := chains[h];
    assert q[i] == kept[i];
    WalkIsAcyclic(f, n, q[0], q);
    ChainIsUsed(f, n, q, i);
    forall j | 0 <= j < |old_| ensures old_[j] != kept[i] {
      assert q[|kept| + j] == old_[j] && q[i] == kept[i];
    }
  }

  /** The changed chain: the clusters kept, which still lead to the first of p, and then p. */
  lemma ChangedChain(f0: Fat, f1: Fat, n: int, chains: map<int, Path>, h: int, kept: Path, p: Path, old_: Path)
    requires Sound(f0, n, chains) && Writable(f0, n, chains, h, kept, p, old_) && Relinked(f0, f1, p, old_)
    ensures Chain(f1, n, kept + p) && (kept + p)[0] == h
  {
    var q := kept + p;
    RelinkedChain(f0, f1, n, p, old_);
    forall i | 0 <= i < |q| ensures 2 <= q[i] < n {
      if i < |kept| { KeptIsApart(f0, n, chains, h, kept, p, old_, i); }
    }
    forall i | 0 <= i < |q| - 1 ensures Next(f1, q[i]) == q[i + 1] {
      if i < |kept| {
        KeptIsApart(f0, n, chains, h, kept, p, old_, i);
        assert chains[h][i] == kept[i] && chains[h][i + 1] == q[i + 1];
        assert Next(f0, chains[h][i]) == chains[h][i + 1];
      } else {
        assert Next(f1, p[i - |kept|]) == p[i - |kept| + 1];
      }
    }
    assert End(f1, q[0], q) == End(f1, p[0], p);
  }

  lemma RelinkSparesOthers(f0: Fat, f1: Fat, n: int, chains: map<int, Path>, h: int, kept: Path, p: Path, old_: Path,
                           g: int)
    requires Sound(f0, n, chains) && Writable(f0, n, chains, h, kept, p, old_) && Relinked(f0, f1, p, old_)
    requires g in chains && g != h
    ensures Chain(f1, n, chains[g]) && Disjoint(chains[g], kept + p) && Disjoint(kept + p, chains[g])
  {
    var q := chains[g];
    assert forall c | c in kept || c in old_ :: h in chains && c in chains[h];
    forall i | 0 <= i < |q| ensures q[i] !in kept && q[i] !in p && q[i] !in old_ {
      ChainIsUsed(f0, n, q, i);
      assert h in chains ==> Disjoint(q, chains[h]);
    }
    ChainUnaffected(f0, f1, n, q);
  }

  lemma RelinkCovers(f0: Fat, f1: Fat, n: int, chains: map<int, Path>, h: int, kept: Path, p: Path, old_: Path, c: int)
    requires Sound(f0, n, chains) && Writable(f0, n, chains, h, kept, p, old_) && Relinked(f0, f1, p, old_)
    requires 2 <= c < n
    ensures f1[c] != 0 ==> Next(f1, c) == BAD_CLUSTER || Owned(chains[h := kept + p], c)
    ensures f1[c] < 0x1000_0000 || Next(f1, c) == 0 || Next(f1, c) >= BAD_CLUSTER
  {
    var after := chains[h := kept + p];
    if c in p {
      assert h in after && c in after[h];
      var i :| 0 <= i < |p| && p[i] == c;
      assert f1[p[i]] == if i + 1 < |p| then p[i + 1] else END_MARK;
    } else if f1[c] != 0 && Next(f0, c) != BAD_CLUSTER {
      assert Owned(chains, c);
      var g :| g in chains && c in chains[g];
      assert g in after && c in after[g];
    }
  }

  lemma RelinkKeepsChains(f0: Fat, f1: Fat, n: int, chains: map<int, Path>, h: int, kept: Path, p: Path, old_: Path)
    requires Sound(f0, n, chains) && Writable(f0, n, chains, h, kept, p, old_) && Relinked(f0, f1, p, old_)
    ensures var after := chains[h := kept + p];
      && (forall g | g in after :: Chain(f1, n, after[g]) && after[g][0] == g)
      && (forall g, g' {:trigger Disjoint(after[g], after[g'])} | g in after && g' in after && g != g' ::
            Disjoint(after[g], after[g']))
  {
    var after := chains[h := kept + p];
    ChangedChain(f0, f1, n, chains, h, kept, p, old_);
    forall g | g in chains && g != h
      ensures Chain(f1, n, chains[g]) && Disjoint(chains[g], kept + p) && Disjoint(kept + p, chains[g])
    {
      RelinkSparesOthers(f0, f1, n, chains, h, kept, p, old_, g);
    }
    forall g, g' | g in after && g' in after && g != g' ensures Disjoint(after[g], after[g']) {
      assert g != h && g' != h ==> Disjoint(chains[g], chains[g']);
    }
  }

  lemma ReservedEntries(f0: Fat, f1: Fat, n: int, chains: map<int, Path>, h: int, kept: Path, p: Path, old_: Path)
    requires Sound(f0, n, chains) && Writable(f0, n, chains, h, kept, p, old_) && Relinked(f0, f1, p, old_)
    ensures f1[0] == f0[0] && f1[1] == f0[1]
  {
    if h in chains {
      forall i | 0 <= i < |old_| ensures old_[i] >= 2 {
        assert chains[h][|kept| + i] == old_[i];
      }
    }
  }

  /** Writing clusters behind those kept, over free ones and the chain's own old ones, keeps
      the table sound, whatever the other chains are. */
  lemma RelinkKeepsSound(f0: Fat, f1: Fat, n: int, chains: map<int, Path>, h: int, kept: Path, p: Path, old_: Path)
    requires Sound(f0, n, chains) && Writable(f0, n, chains, h, kept, p, old_) && Relinked(f0, f1, p, old_)
    ensures Sound(f1, n, chains[h := kept + p])
  {
    RelinkKeepsChains(f0, f1, n, chains, h, kept, p, old_);
    forall c | 2 <= c < n
      ensures f1[c] != 0 ==> Next(f1, c) == BAD_CLUSTER || Owned(chains[h := kept + p], c)
      ensures f1[c] < 0x1000_0000 || Next(f1, c) == 0 || Next(f1, c) >= BAD_CLUSTER
    {
      RelinkCovers(f0, f1, n, chains, h, kept, p, old_, c);
    }
    ReservedEntries(f0, f1, n, chains, h, kept, p, old_);
  }

  /** f1 is f0 with exactly the clusters of p freed. */
  ghost predicate Freed(f0: Fat, f1: Fat, p: Path) {
    && |f1| == |f0|
    && (forall c | 0 <= c < |f0| :: f1[c] == if c in p then 0 else f0[c])
  }

  lemma FreeingKeepsSound(f0: Fat, f1: Fat, n: int, chains: map<int, Path>, h: int)
    requires Sound(f0, n, chains) && h in chains
    requires Freed(f0, f1, chains[h])
    ensures Sound(f1, n, chains - {h})
  {
    var after := chains - {h};
    forall g | g in after ensures Chain(f1, n, after[g]) {
      assert Disjoint(after[g], chains[h]);
      ChainUnaffected(f0, f1, n, after[g]);
    }
    forall c | 2 <= c < n && f1[c] != 0
      ensures Next(f1, c) == BAD_CLUSTER || Owned(after, c)
    {
      if Next(f0, c) != BAD_CLUSTER {
        assert Owned(chains, c);
        var g :| g in chains && c in chains[g];
        assert g in after && c in after[g];
      }
    }
    assert f1[0] == f0[0] && f1[1] == f0[1];
  }

  lemma RelinkMember(f0: Fat, f1: Fat, n: int, p: Path, old_: Path, c: int)
    requires n <= |f0| && InData(n, p) && InData(n, old_)
    requires Relinked(f0, f1, p, old_)
    requires forall i | 0 <= i < |p| :: f0[p[i]] == 0 || p[i] in old_
    ensures !(c in Elems(p) && c in FreeSet(f1, n))
    ensures c in FreeSet(f1, n) + Elems(p) <==> c in FreeSet(f0, n) + Elems(old_)
  {
    ElemsIn(p, c);
    ElemsIn(old_, c);
    if c in p {
      var i :| 0 <= i < |p| && p[i] == c;
      assert f1[p[i]] != 0;
    }
  }

  /** Free clusters after a relink: the old chain's are given back, the new chain's taken. */
  lemma RelinkCount(f0: Fat, f1: Fat, n: int, p: Path, old_: Path)
    requires n <= |f0| && InData(n, p) && Distinct(p) && InData(n, old_) && Distinct(old_)
    requires Relinked(f0, f1, p, old_)
    requires forall i | 0 <= i < |old_| :: f0[old_[i]] != 0
    requires forall i | 0 <= i < |p| :: f0[p[i]] == 0 || p[i] in old_
    ensures |FreeSet(f1, n)| == |FreeSet(f0, n)| + |old_| - |p|
  {
    DistinctCount(p);
    DistinctCount(old_);
    var free0, free1, taken, back := FreeSet(f0, n), FreeSet(f1, n), Elems(p), Elems(old_);
    forall c ensures !(c in taken && c in free1)
      ensures c in free1 + taken <==> c in free0 + back
    {
      RelinkMember(f0, f1, n, p, old_, c);
    }
    assert taken !! free1 && back !! free0;
    assert free1 + taken == free0 + back;
    assert |free1 + taken| == |free1| + |p|;
    assert |free0 + back| == |free0| + |old_|;
  }

  /** An empty file has the start cluster 0. Deleting it frees entry 0, the mark of the table
      itself; no chains make the table sound then, and the next search from the start of the
      table takes cluster 0. */
  lemma FreeingEntryZero(f0: Fat, f1: Fat, n: int, p: Path, chains: map<int, Path>)
    requires 0 < n <= |f0| && Freed(f0, f1, p) && 0 in p
    ensures !Sound(f1, n, chains) && FreeFrom(f1, 0, n) != [] && FreeFrom(f1, 0, n)[0] == 0
  {
  }

  lemma FreeingCount(f0: Fat, f1: Fat, n: int, p: Path)
    requires n <= |f0| && InData(n, p) && Distinct(p)
    requires Freed(f0, f1, p)
    requires forall i | 0 <= i < |p| :: f0[p[i]] != 0
    ensures |FreeSet(f1, n)| == |FreeSet(f0, n)| + |p|
  {
    DistinctCount(p);
    var free0, free1, back := FreeSet(f0, n), FreeSet(f1, n), Elems(p);
    assert back !! free0;
    assert free1 == free0 + back by {
      forall c ensures c in free1 <==> c in free0 + back {
        ElemsIn(p, c);
      }
    }
  }
}
