/** What the users of the cluster-chain engine can rely on, derived from its steps: what the
    result of a write says, what is lost to the searches for free clusters, and what mounting
    the partition again finds. */
module FatLaws {
  import opened Machine
  import opened FatTable
  import opened FatVolume
  import opened FatSpec

  // ----- What the result of a write says -----

  /** The free clusters that a search can come to. */
  ghost function Searchable(s: State): set<int>
    requires s.Valid()
  {
    set c | SearchFrom(s.info.clusterSearchStart) <= c < s.vol.totalClusters && s.fat[c] == 0
  }

  /** Those and the free cluster that the caller names, if any. */
  ghost function Takeable(s: State, start: int): set<int>
    requires s.Valid()
  {
    Searchable(s) + if start == -1 then {} else {start}
  }

  lemma PlanIsTakeable(s: State, start: int)
    requires s.Valid() && s.StartsNew(start) && s.Plan(start) != []
    ensures Elems(s.Plan(start)) == Takeable(s, start) && |s.Plan(start)| == |Takeable(s, start)|
  {
    var lo, n, plan := SearchFrom(s.info.clusterSearchStart), s.vol.totalClusters, s.Plan(start);
    NewPlan(s, start);
    DistinctCount(plan);
    forall c ensures c in Elems(plan) <==> c in Takeable(s, start) {
      ElemsIn(plan, c);
      if start == -1 {
        FreeFromIsComplete(s.fat, lo, n);
      } else {
        FreeFromIsComplete(s.fat[start := END_MARK], lo, n);
        assert plan == [start] + FreeFrom(s.fat[start := END_MARK], lo, n);
      }
    }
  }

  lemma PlanIsInData(s: State, start: int)
    requires s.Valid() && s.Plan(start) != []
    ensures 2 <= s.Plan(start)[0] < s.vol.totalClusters
  {
    if s.StartsNew(start) { NewPlan(s, start); } else { OverwritePlan(s, start); }
  }

  /** A write is refused exactly when FSInfo counts too few free clusters; nothing changes then. */
  lemma RefusedWrite(s: State, t: State, buffer: seq<Sector>, count: nat, start: int, r: int)
    requires s.Valid() && WriteStep(s, t, buffer, count, start, r)
    ensures r == -1 <==> s.info.freeClusterCount < count
    ensures r == -1 ==> t == s
    ensures r == -1 || r == -2 || 2 <= r < s.vol.totalClusters
  {
    if s.Plan(start) != [] { PlanIsInData(s, start); }
  }

  /** How one that is not refused goes on. */
  lemma ResultTellsCase(s: State, t: State, buffer: seq<Sector>, count: nat, start: int, r: int)
    requires s.Valid() && WriteStep(s, t, buffer, count, start, r) && r != -1
    ensures 0 < count <= s.info.freeClusterCount && s.CanWrite(count, start)
    ensures r == if Full(s, count, start) then -2 else s.Plan(start)[0]
    ensures r == -2 <==> Full(s, count, start)
  {
    if s.Plan(start) != [] { PlanIsInData(s, start); }
  }

  /** The file that begins at the first cluster of a write's plan, when that is a new chain. */
  lemma NewFile(s: State, t: State, buffer: seq<Sector>, count: nat, start: int)
    requires s.Valid() && t.Valid() && s.StartsNew(start) && s.Plan(start) != []
    requires WriteSeen(s, t, buffer, count, start)
    ensures var size := Filling(s, count, start) * s.vol.sectorsPerCluster;
      0 <= size <= |buffer| && t.Files() == s.Files()[s.Plan(start)[0] := buffer[..size]]
  {
    NewHead(s, start);
    s.vol.SpanIsProduct(Filling(s, count, start));
    assert Written(s, buffer, count, start) == buffer[..s.vol.Span(Filling(s, count, start))];
  }

  lemma RelinkedIsUsed(f0: Fat, f1: Fat, p: Path, old_: Path, c: int)
    requires Relinked(f0, f1, p, old_) && c in Elems(p)
    ensures f1[c] != 0
  {
    var i :| 0 <= i < |p| && p[i] == c;
    assert f1[p[i]] != 0;
  }

  /** A write that found the table full has taken every cluster it could. */
  lemma FullWriteTakesAll(s: State, t: State, buffer: seq<Sector>, count: nat, start: int)
    requires s.Valid() && s.StartsNew(start) && s.Plan(start) != [] && count <= s.info.freeClusterCount
    requires Full(s, count, start) && WriteStep(s, t, buffer, count, start, -2)
    ensures |t.fat| == |s.fat| && t.vol == s.vol && t.info.clusterSearchStart == s.vol.totalClusters
    ensures forall c | c in Takeable(s, start) :: t.fat[c] != 0
  {
    var c, plan := s.Charge(count), s.Plan(start);
    SameStart(s, c, start);
    PlanIsTakeable(s, start);
    assert plan[..|plan|] == plan;
    forall d | d in Takeable(s, start) ensures t.fat[d] != 0 {
      RelinkedIsUsed(s.fat, t.fat, plan, c.Old(start), d);
    }
  }

  lemma FullMeans(s: State, count: nat, start: int)
    requires s.Valid() && s.CanWrite(count, start)
    ensures Full(s, count, start) <==>
      && (start == -1 || (2 <= start < s.vol.totalClusters && s.fat[start] == 0))
      && |Takeable(s, start)| <= count
  {
    if s.StartsNew(start) { PlanIsTakeable(s, start); }
  }

  /** A write finds the table full exactly when it begins a chain and the clusters it could
      take are no more than it needs. */
  lemma FullWrite(s: State, t: State, buffer: seq<Sector>, count: nat, start: int, r: int)
    requires s.Valid() && WriteStep(s, t, buffer, count, start, r)
    ensures r == -2 <==>
      && count <= s.info.freeClusterCount && (start == -1 || (2 <= start < s.vol.totalClusters && s.fat[start] == 0))
      && |Takeable(s, start)| <= count
  {
    RefusedWrite(s, t, buffer, count, start, r);
    if r != -1 {
      ResultTellsCase(s, t, buffer, count, start, r);
      FullMeans(s, count, start);
    }
  }

  /** By then it has written all of them as one new file, whose head it does not tell, and no
      search comes to a free cluster any more. It has not flushed. */
  lemma AfterFullWrite(s: State, t: State, buffer: seq<Sector>, count: nat, start: int) returns (h: int)
    requires s.Valid() && WriteStep(s, t, buffer, count, start, -2)
    ensures t.Valid() && Searchable(t) == {} && forall c | c in Takeable(s, start) :: t.fat[c] != 0
    ensures t.storedFat == s.storedFat && t.storedInfo == s.storedInfo
    ensures t.info.freeClusterCount == s.info.freeClusterCount - count
    ensures h in Takeable(s, start) && h !in s.Files()
    ensures var size := |Takeable(s, start)| * s.vol.sectorsPerCluster;
      0 <= size <= |buffer| && t.Files() == s.Files()[h := buffer[..size]]
  {
    ResultTellsCase(s, t, buffer, count, start, -2);
    PlanIsTakeable(s, start);
    NewHead(s, start);
    h := s.Plan(start)[0];
    assert h in Elems(s.Plan(start));
    FullWriteTakesAll(s, t, buffer, count, start);
    WriteEffect(s, t, buffer, count, start, -2);
    NewFile(s, t, buffer, count, start);
  }

  /** A new chain begins at the caller's cluster or at the lowest one that a search comes to. */
  lemma NewChainBegins(s: State, start: int)
    requires s.Valid() && s.StartsNew(start) && s.Plan(start) != []
    ensures var r := s.Plan(start)[0];
      && 2 <= r < s.vol.totalClusters && s.fat[r] == 0 && !Owned(s.chains, r)
      && if start == -1 then r in Searchable(s) && forall c | c in Searchable(s) :: r <= c else r == start
  {
    var plan := s.Plan(start);
    var r := plan[0];
    NewPlan(s, start);
    if Owned(s.chains, r) { OverwritePlan(s, r); }
    if start == -1 {
      FreeFromIsComplete(s.fat, SearchFrom(s.info.clusterSearchStart), s.vol.totalClusters);
      forall c | c in Searchable(s) ensures r <= c {
        assert c in plan;
      }
      assert r in plan;
    }
  }

  /** A finished write of a new chain tells its head, which was free and in no file, and holds the
      buffer there. */
  lemma NewChainWritten(s: State, t: State, buffer: seq<Sector>, count: nat, start: int, r: int)
    requires s.Valid() && WriteStep(s, t, buffer, count, start, r) && r >= 0
    requires start == -1 || (2 <= start < s.vol.totalClusters && s.fat[start] == 0)
    ensures if start == -1 then r in Searchable(s) && forall c | c in Searchable(s) :: r <= c else r == start
    ensures s.fat[r] == 0 && !Owned(s.chains, r) && r !in s.Files()
    ensures var size := count * s.vol.sectorsPerCluster;
      t.Valid() && 0 <= size <= |buffer| && t.Files() == s.Files()[r := buffer[..size]]
  {
    ResultTellsCase(s, t, buffer, count, start, r);
    NewChainBegins(s, start);
    NewHead(s, start);
    WriteEffect(s, t, buffer, count, start, r);
    NewFile(s, t, buffer, count, start);
  }

  /** A cluster's place on its chain is where the chain is cut for a write there. */
  lemma KeptAt(s: State, h: int, k: nat)
    requires s.Valid() && h in s.chains && k < |s.chains[h]|
    ensures var start := s.chains[h][k];
      Owned(s.chains, start) && OwnerOf(s.chains, start) == h && s.Kept(start) == s.chains[h][..k]
  {
    var p, start := s.chains[h], s.chains[h][k];
    assert start in p;
    assert OwnerOf(s.chains, start) != h ==> Disjoint(s.chains[OwnerOf(s.chains, start)], p);
    WalkIsAcyclic(s.fat, s.vol.totalClusters, h, p);
    assert p[|s.Kept(start)|] == start;
  }

  /** What a chain's first k clusters hold is the first part of its file. */
  lemma FrontOfFile(s: State, h: int, k: nat)
    requires s.Valid() && h in s.chains && k <= |s.chains[h]|
    ensures var size := k * s.vol.sectorsPerCluster;
      0 <= size <= |s.Files()[h]| && s.vol.Data(s.disk, s.chains[h][..k]) == s.Files()[h][..size]
  {
    var p := s.chains[h];
    assert p == p[..k] + p[k..];
    s.vol.DataConcat(s.disk, p[..k], p[k..]);
    s.vol.DataLength(s.disk, p[..k]);
    s.vol.SpanIsProduct(k);
  }

  /** A finished write that starts at the k-th cluster of a chain leaves the first k clusters of
      that file as they were and puts the buffer behind them; no other file changes. */
  lemma ChainOverwritten(s: State, t: State, buffer: seq<Sector>, count: nat, h: int, k: nat, r: int)
    requires s.Valid() && h in s.chains && k < |s.chains[h]|
    requires WriteStep(s, t, buffer, count, s.chains[h][k], r) && r >= 0
    ensures r == s.chains[h][k] && k + count <= |s.chains[h]|
    ensures var front, size := k * s.vol.sectorsPerCluster, count * s.vol.sectorsPerCluster;
      && t.Valid() && 0 <= front <= |s.Files()[h]| && 0 <= size <= |buffer|
      && t.Files() == s.Files()[h := s.Files()[h][..front] + buffer[..size]]
  {
    var start := s.chains[h][k];
    KeptAt(s, h, k);
    OverwritePlan(s, start);
    ResultTellsCase(s, t, buffer, count, start, r);
    WriteEffect(s, t, buffer, count, start, r);
    FrontOfFile(s, h, k);
    s.vol.SpanIsProduct(count);
  }

  // ----- The free count -----

  /** Where a write goes that starts at the k-th cluster of a chain. */
  lemma OverwriteGoes(s: State, h: int, k: nat)
    requires s.Valid() && h in s.chains && k < |s.chains[h]|
    ensures var start := s.chains[h][k];
      && !s.StartsNew(start) && s.Plan(start) == s.chains[h][k..] && s.Old(start) == s.chains[h][k..]
  {
    KeptAt(s, h, k);
    OverwritePlan(s, s.chains[h][k]);
  }

  lemma OverwriteFrees(s: State, count: nat, h: int, k: nat)
    requires s.Valid() && h in s.chains && k < |s.chains[h]|
    ensures var start, rest := s.chains[h][k], |s.chains[h]| - k;
      && !Full(s, count, start) && Filling(s, count, start) == count
      && Orphans(s, count, start) == rest - count && |s.Old(start)| == rest
  {
    OverwriteGoes(s, h, k);
  }

  lemma OverwriteSeen(s: State, t: State, buffer: seq<Sector>, count: nat, h: int, k: nat)
    requires s.Valid() && t.Valid() && h in s.chains && k < |s.chains[h]| && count <= s.info.freeClusterCount
    requires WriteSeen(s, t, buffer, count, s.chains[h][k])
    requires t.info.freeClusterCount == CountAfter(s, count, s.chains[h][k])
    ensures t.FreeClusters() == s.FreeClusters() + (|s.chains[h]| - k - count)
    ensures s.transfer.Store? ==>
      t.info.freeClusterCount == (s.info.freeClusterCount - count + (|s.chains[h]| - k - count)) % 0x1_0000_0000
  {
    OverwriteFrees(s, count, h, k);
  }

  /** A finished write from the k-th cluster of a chain on frees the clusters behind those it
      fills. It takes those it fills off FSInfo's count as well, though none of them was free. */
  lemma OverwriteCounts(s: State, t: State, buffer: seq<Sector>, count: nat, h: int, k: nat, r: int)
    requires s.Valid() && h in s.chains && k < |s.chains[h]|
    requires WriteStep(s, t, buffer, count, s.chains[h][k], r) && r >= 0
    ensures t.Valid() && t.FreeClusters() == s.FreeClusters() + (|s.chains[h]| - k - count)
    ensures s.transfer.Store? ==>
      t.info.freeClusterCount == (s.info.freeClusterCount - count + (|s.chains[h]| - k - count)) % 0x1_0000_0000
  {
    WriteEffect(s, t, buffer, count, s.chains[h][k], r);
    RefusedWrite(s, t, buffer, count, s.chains[h][k], r);
    OverwriteSeen(s, t, buffer, count, h, k);
  }

  // ----- The search start -----

  /** The free clusters that a search beginning at lo would come to. */
  ghost function FreeAbove(s: State, lo: nat): set<int>
    requires s.Valid()
  {
    set c | lo <= c < s.vol.totalClusters && s.fat[c] == 0
  }

  lemma BehindPrefix(p: Path, num: nat, c: int)
    requires 0 < num <= |p| && Ascending(p[1..]) && c in p && c !in p[..num]
    ensures num < |p| && p[num] <= c
  {
    assert p == p[..num] + p[num..] && c in p[num..];
    var j :| 0 <= j < |p[num..]| && p[num..][j] == c;
    assert p[1..][num - 1] == p[num] && p[1..][num - 1 + j] == c;
  }

  /** A cluster that is free once num clusters of a new chain's plan are taken is a later one of
      the plan. */
  lemma NotYetTaken(s: State, f1: Fat, start: int, num: nat, c: int)
    requires s.Valid() && s.StartsNew(start) && 0 < num <= |s.Plan(start)|
    requires Relinked(s.fat, f1, s.Plan(start)[..num], [])
    requires SearchFrom(s.info.clusterSearchStart) <= c < s.vol.totalClusters && f1[c] == 0
    ensures c in s.Plan(start) && c !in s.Plan(start)[..num]
  {
    PlanIsTakeable(s, start);
    ElemsIn(s.Plan(start), c);
    ElemsIn(s.Plan(start)[..num], c);
    if c in Elems(s.Plan(start)[..num]) { RelinkedIsUsed(s.fat, f1, s.Plan(start)[..num], [], c); }
  }

  lemma PlanAscends(s: State, start: int)
    requires s.Valid() && s.StartsNew(start) && s.Plan(start) != []
    ensures Ascending(s.Plan(start)[1..])
  {
    NewPlan(s, start);
  }

  lemma NextIsFirst(s: State, f1: Fat, start: int, num: nat, c: int)
    requires s.Valid() && s.StartsNew(start) && 0 < num <= |s.Plan(start)|
    requires Relinked(s.fat, f1, s.Plan(start)[..num], [])
    requires SearchFrom(s.info.clusterSearchStart) <= c < s.vol.totalClusters && f1[c] == 0
    ensures num < |s.Plan(start)| && s.Plan(start)[num] <= c
  {
    NotYetTaken(s, f1, start, num, c);
    PlanAscends(s, start);
    BehindPrefix(s.Plan(start), num, c);
  }

  /** The next cluster of the plan lies behind the search start, as its first part may not. */
  lemma NextIsAbove(s: State, start: int, num: nat)
    requires s.Valid() && s.StartsNew(start) && 0 < num < |s.Plan(start)|
    ensures SearchFrom(s.info.clusterSearchStart) <= s.Plan(start)[num] < s.vol.totalClusters
  {
    var plan := s.Plan(start);
    NewPlan(s, start);
    PlanIsTakeable(s, start);
    assert plan[num] in Elems(plan) && plan[num] != plan[0];
  }

  /** Placing a chain moves the search start over used clusters only. */
  lemma PlacedSearch(s: State, u: State, buffer: seq<Sector>, count: nat, start: int)
    requires s.Valid() && u.Valid() && s.CanWrite(count, start) && Placed(s, u, buffer, count, start)
    ensures Searchable(u) == FreeAbove(u, SearchFrom(s.info.clusterSearchStart))
  {
    var num, plan := Filling(s, count, start), s.Plan(start);
    if s.StartsNew(start) {
      forall c | c in FreeAbove(u, SearchFrom(s.info.clusterSearchStart))
        ensures num < |plan| && plan[num] <= c
      {
        NextIsFirst(s, u.fat, start, num, c);
      }
      if num < |plan| { NextIsAbove(s, start, num); }
    }
  }

  /** A write does not lose a free cluster: the searches after it come to every cluster that is
      free then and that they came to before. With FSInfo loaded that holds if it did not flush. */
  lemma WriteSearch(s: State, t: State, buffer: seq<Sector>, count: nat, start: int, r: int)
    requires s.Valid() && WriteStep(s, t, buffer, count, start, r) && (s.transfer.Store? || r < 0)
    ensures t.Valid() && Searchable(t) == FreeAbove(t, SearchFrom(s.info.clusterSearchStart))
  {
    WriteEffect(s, t, buffer, count, start, r);
    RefusedWrite(s, t, buffer, count, start, r);
    if r != -1 {
      ResultTellsCase(s, t, buffer, count, start, r);
      var c := s.Charge(count);
      ChargeKeepsValid(s, count, start);
      SameStart(s, c, start);
      if r == -2 {
        PlacedSearch(c, t, buffer, count, start);
      } else {
        var u :| Placed(c, u, buffer, count, start) && t == u.GiveBack(Orphans(s, count, start));
        PlacedTable(c, u, buffer, count, start);
        PlacedSearch(c, u, buffer, count, start);
      }
    }
  }

  lemma DeletedHint(s: State, t: State, start: u32)
    requires s.Valid() && DeleteStep(s, t, start) && s.transfer.Store?
    ensures t.vol == s.vol && 2 <= start < s.vol.totalClusters
    ensures t.info.clusterSearchStart == if start < s.info.clusterSearchStart then start else s.info.clusterSearchStart
  {
    ChainIsUsed(s.fat, s.vol.totalClusters, s.chains[start], 0);
  }

  lemma LoweringLoses(t: State, before: u32, start: u32)
    requires t.Valid() && 2 <= start < t.vol.totalClusters
    requires t.info.clusterSearchStart == if start < before then start else before
    ensures FreeAbove(t, SearchFrom(before)) <= Searchable(t)
      <==> before != 0xFFFF_FFFF || forall c | 2 <= c < start :: t.fat[c] != 0
  {
    if before == 0xFFFF_FFFF {
      assert SearchFrom(before) == 2 && SearchFrom(t.info.clusterSearchStart) == start;
      forall c | 2 <= c < start ensures c in FreeAbove(t, 2) <==> t.fat[c] == 0 {}
    }
  }

  /** With FSInfo stored, the search start after a deletion is the lower one of what it was and
      the deleted head. So it loses free clusters exactly when it was not known, which let the
      searches begin at cluster 2, and one is free in front of the head. */
  lemma DeleteSearch(s: State, t: State, start: u32)
    requires s.Valid() && DeleteStep(s, t, start) && s.transfer.Store?
    ensures t.Valid() && t.info.clusterSearchStart <= start && t.info.clusterSearchStart <= s.info.clusterSearchStart
    ensures t.info.clusterSearchStart == start || t.info.clusterSearchStart == s.info.clusterSearchStart
    ensures FreeAbove(t, SearchFrom(s.info.clusterSearchStart)) <= Searchable(t)
      <==> s.info.clusterSearchStart != 0xFFFF_FFFF || forall c | 2 <= c < start :: t.fat[c] != 0
  {
    DeleteEffect(s, t, start);
    DeletedHint(s, t, start);
    LoweringLoses(t, s.info.clusterSearchStart, start);
  }

  // ----- Mounting again -----

  /** A call that got as far as its flush. */
  predicate Finished(call: Call) {
    call.Delete? || call.r >= 0
  }

  /** A finished call leaves the whole table on the disk, and the same FSInfo as in memory. Any
      other leaves there what it found. */
  lemma FinishedIsStored(s: State, call: Call, t: State)
    requires s.Valid() && Step(s, call, t)
    ensures if Finished(call) then t.storedFat == t.fat && t.storedInfo == t.info
            else t.storedFat == s.storedFat && t.storedInfo == s.storedInfo
    ensures s.transfer.Load? ==> t.storedInfo == s.storedInfo
  {
    if call.Write? {
      RefusedWrite(s, t, call.buffer, call.count, call.start, call.r);
      if call.r != -1 { ResultTellsCase(s, t, call.buffer, call.count, call.start, call.r); }
    }
  }

  /** The table on the disk has the given chains, which are among those in memory; and a
      partition mounted from there has the given files. */
  ghost predicate StoredAs(t: State, kept: map<int, Path>, files: map<int, seq<Sector>>) {
    && t.Valid() && Sound(t.storedFat, t.vol.totalClusters, kept)
    && (forall h | h in kept :: h in t.chains && t.chains[h] == kept[h])
    && t.vol.FilesOf(t.disk, kept) == files
  }

  /** A write that is not finished may write sectors, but none of a chain. */
  lemma UnfinishedSparesChain(s: State, t: State, buffer: seq<Sector>, count: nat, start: int, g: int)
    requires s.Valid() && WriteStep(s, t, buffer, count, start, -2) && g in s.chains
    ensures t.vol == s.vol && s.vol.Fits(t.disk) && g in t.chains && t.chains[g] == s.chains[g]
    ensures s.vol.Data(t.disk, s.chains[g]) == s.vol.Data(s.disk, s.chains[g])
  {
    ResultTellsCase(s, t, buffer, count, start, -2);
    var c := s.Charge(count);
    ChargeKeepsValid(s, count, start);
    SameStart(s, c, start);
    NewHead(s, start);
    PlacedSparesFile(c, t, buffer, count, start, g);
  }

  lemma SparedKeepsStored(s: State, t: State, kept: map<int, Path>, files: map<int, seq<Sector>>)
    requires StoredAs(s, kept, files) && t.Valid() && t.vol == s.vol && t.storedFat == s.storedFat
    requires forall g | g in s.chains ::
      g in t.chains && t.chains[g] == s.chains[g] && s.vol.Data(t.disk, s.chains[g]) == s.vol.Data(s.disk, s.chains[g])
    ensures StoredAs(t, kept, files)
  {
    forall g | g in kept ensures s.vol.Data(t.disk, kept[g]) == s.vol.Data(s.disk, kept[g]) {
      assert s.chains[g] == kept[g];
    }
  }

  lemma StepStored(s: State, call: Call, t: State, kept: map<int, Path>, files: map<int, seq<Sector>>)
    returns (kept1: map<int, Path>)
    requires StoredAs(s, kept, files) && Step(s, call, t)
    ensures t.Valid() && StoredAs(t, kept1, if Finished(call) then t.Files() else files)
  {
    StepKeepsValid(s, call, t);
    FinishedIsStored(s, call, t);
    kept1 := if Finished(call) then t.chains else kept;
    if call.Write? && call.r < 0 {
      RefusedWrite(s, t, call.buffer, call.count, call.start, call.r);
      if call.r == -2 {
        forall g | g in s.chains
          ensures g in t.chains && t.chains[g] == s.chains[g]
          ensures s.vol.Data(t.disk, s.chains[g]) == s.vol.Data(s.disk, s.chains[g])
        {
          UnfinishedSparesChain(s, t, call.buffer, call.count, call.start, g);
        }
        SparedKeepsStored(s, t, kept, files);
      }
    }
  }

  /** How many of the first k calls it takes to come to the last finished one. */
  ghost function LastFinished(calls: seq<Call>, k: nat): (j: nat)
    requires k <= |calls|
    ensures j <= k && (j > 0 ==> Finished(calls[j - 1])) && forall i | j <= i < k :: !Finished(calls[i])
  {
    if k == 0 || Finished(calls[k - 1]) then k else LastFinished(calls, k - 1)
  }

  lemma {:induction false} RunStored(trace: seq<State>, calls: seq<Call>, k: nat) returns (kept: map<int, Path>)
    requires Run(trace, calls) && k <= |calls| && trace[0].storedFat == trace[0].fat
    ensures var j := LastFinished(calls, k); trace[j].Valid() && StoredAs(trace[k], kept, trace[j].Files())
  {
    if k == 0 {
      kept := trace[0].chains;
    } else {
      kept := RunStored(trace, calls, k - 1);
      assert Goes(trace[k - 1], calls[k - 1], trace[k]);
      kept := StepStored(trace[k - 1], calls[k - 1], trace[k], kept, trace[LastFinished(calls, k - 1)].Files());
    }
  }

  /** Whenever the partition is mounted again, it has exactly the files that it had after the last
      finished call, whatever calls were refused or found the table full since. */
  lemma RemountFindsFiles(trace: seq<State>, calls: seq<Call>, k: nat, transfer: InfoTransfer)
    returns (kept: map<int, Path>)
    requires Run(trace, calls) && k <= |calls| && trace[0].storedFat == trace[0].fat
    ensures var t, j := trace[k], LastFinished(calls, k);
      var m := Mounted(t.vol, t.disk, t.storedFat, t.storedInfo, transfer, kept);
      trace[j].Valid() && m.Valid() && m.Files() == trace[j].Files()
    ensures forall other | Sound(trace[k].storedFat, trace[k].vol.totalClusters, other) :: other == kept
  {
    kept := RunStored(trace, calls, k);
    forall other | Sound(trace[k].storedFat, trace[k].vol.totalClusters, other) ensures other == kept {
      ChainsAreUnique(trace[k].storedFat, trace[k].vol.totalClusters, other, kept);
    }
  }
}
