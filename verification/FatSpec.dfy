/** What the operations of the cluster-chain engine do, as relations between the states
    of a mounted partition, and what follows for whole runs of them. */
module FatSpec {
  import opened Machine
  import opened FatTable
  import opened FatVolume

  /** The two fields of the FSInfo sector that the driver uses. */
  datatype FsInfo = FsInfo(freeClusterCount: u32, clusterSearchStart: u32)

  /** Which way write_fat moves FSInfo: Store is what its comment says, Load is
      the call it makes. */
  datatype InfoTransfer = Store | Load

  /** The start argument that asks for a new chain. */
  const NEW_CHAIN := -1

  /** The part of a path in front of a cluster. */
  ghost function Before(p: Path, c: int): (q: Path)
    ensures |q| <= |p| && q == p[..|q|]
    ensures c in p ==> |q| < |p| && p[|q|] == c
  {
    if p == [] || p[0] == c then [] else [p[0]] + Before(p[1..], c)
  }

  function SearchFrom(searchStart: u32): nat {
    if searchStart == UNKNOWN then 2 else searchStart
  }

  /** A mounted partition: the table and FSInfo in memory, the data sectors, the FAT and
      FSInfo sectors on the disk, and the chains of the table, keyed by head cluster. */
  datatype State = State(
    vol: Volume,
    transfer: InfoTransfer,
    fat: Fat,
    info: FsInfo,
    disk: seq<Sector>,
    storedFat: Fat,
    storedInfo: FsInfo,
    chains: map<int, Path>)
  {
    predicate GoodStart(searchStart: u32) {
      searchStart <= vol.totalClusters || searchStart == UNKNOWN
    }

    ghost predicate Valid() {
      && vol.Fits(disk)
      && GoodStart(info.clusterSearchStart)
      && GoodStart(storedInfo.clusterSearchStart)
      && Sound(fat, vol.totalClusters, chains)
    }

    /** What the partition means to its users: the sectors of every chain. */
    ghost function Files(): map<int, seq<Sector>>
      requires Valid()
    {
      vol.FilesOf(disk, chains)
    }

    ghost function FreeClusters(): nat
      requires Valid()
    {
      |FreeSet(fat, vol.totalClusters)|
    }

    /** FSInfo's free count is the number of free clusters. */
    ghost predicate Balanced()
      requires Valid()
    {
      info.freeClusterCount == FreeClusters()
    }

    /** A write at start begins a chain: at a free cluster of its own choice or the caller's. */
    ghost predicate StartsNew(start: int)
      requires Valid()
    {
      start == NEW_CHAIN || (2 <= start < vol.totalClusters && fat[start] == 0)
    }

    /** The clusters that a write at start leaves in front of those it writes. */
    ghost function Kept(start: int): Path
      requires Valid()
    {
      if Owned(chains, start) then Before(chains[OwnerOf(chains, start)], start) else []
    }

    /** The clusters a write goes along: those of the chain it overwrites, from start on; or
        the free clusters from the search start on, behind start if that is free. */
    ghost function Plan(start: int): Path
      requires Valid()
    {
      var lo, n := SearchFrom(info.clusterSearchStart), vol.totalClusters;
      if start == NEW_CHAIN then FreeFrom(fat, lo, n)
      else if StartsNew(start) then [start] + FreeFrom(fat[start := END_MARK], lo, n)
      else if Owned(chains, start) then chains[OwnerOf(chains, start)][|Kept(start)|..]
      else []
    }

    /** The clusters of a chain that a write at start takes the place of. */
    ghost function Old(start: int): Path
      requires Valid()
    {
      if StartsNew(start) then [] else Plan(start)
    }

    /** The head of the chain that a write at start begins or changes. */
    ghost function Head(start: int): int
      requires Valid() && Plan(start) != []
    {
      if StartsNew(start) then Plan(start)[0] else OwnerOf(chains, start)
    }

    /** What the caller of a write must see to: start is on a chain that goes on for as many
        clusters, or it is free, or there is a free cluster at or above the search start. */
    ghost predicate CanWrite(count: int, start: int)
      requires Valid()
    {
      Plan(start) != [] && (StartsNew(start) || count <= |Plan(start)|)
    }

    /** Takes the clusters of a write off FSInfo's count, whether they are free or not. */
    ghost function Charge(count: nat): State
      requires count <= info.freeClusterCount
    {
      this.(info := info.(freeClusterCount := info.freeClusterCount - count))
    }

    ghost function Flush(): State {
      if transfer.Store? then this.(storedFat := fat, storedInfo := info)
      else this.(storedFat := fat, info := storedInfo)
    }

    /** Adds freed clusters to FSInfo's count and flushes. */
    ghost function GiveBack(freed: nat): State {
      this.(info := info.(freeClusterCount := (info.freeClusterCount + freed) % TWO_32)).Flush()
    }
  }

  /** A partition as it is mounted: the table and FSInfo in memory are those on the disk. */
  ghost function Mounted(vol: Volume, disk: seq<Sector>, storedFat: Fat, storedInfo: FsInfo, transfer: InfoTransfer,
                         chains: map<int, Path>): State
  {
    State(vol, transfer, storedFat, storedInfo, disk, storedFat, storedInfo, chains)
  }

  // ----- The operations -----

  /** A new chain finds no cluster to spare after its last one. */
  ghost predicate Full(s: State, count: nat, start: int)
    requires s.Valid()
  {
    s.StartsNew(start) && |s.Plan(start)| <= count
  }

  /** How many clusters a write fills. */
  ghost function Filling(s: State, count: nat, start: int): nat
    requires s.Valid()
  {
    if Full(s, count, start) then |s.Plan(start)| else count
  }

  /** How many clusters of the old chain a write frees. */
  ghost function Orphans(s: State, count: nat, start: int): int
    requires s.Valid()
  {
    if s.StartsNew(start) then 0 else |s.Plan(start)| - count
  }

  /** What a write changes before it gives back what it freed. Entry by entry: the first
      clusters of the plan are linked up and the rest of the old chain is freed. Sector by
      sector: these clusters hold the buffer. Nothing else changes but the search start. */
  ghost predicate Placed(s: State, t: State, buffer: seq<Sector>, count: nat, start: int)
    requires s.Valid()
  {
    var plan, num := s.Plan(start), Filling(s, count, start);
    && 0 < num <= |plan| && s.vol.Span(num) <= |buffer|
    && Relinked(s.fat, t.fat, plan[..num], s.Old(start))
    && s.vol.Spares(s.disk, t.disk, plan[..num])
    && s.vol.Stores(t.disk, buffer, plan[..num])
    && t == s.(fat := t.fat, disk := t.disk, info := t.info,
               chains := s.chains[s.Head(start) := s.Kept(start) + plan[..num]])
    && t.info.freeClusterCount == s.info.freeClusterCount
    && t.info.clusterSearchStart ==
        (if !s.StartsNew(start) then s.info.clusterSearchStart
         else if num < |plan| then plan[num] else s.vol.totalClusters)
  }

  /** Writes count clusters from the buffer to a new chain or over the one start is on. The
      result is the first cluster written, or -1 when FSInfo counts too few free clusters, or
      -2 when the table has no cluster to spare after the last one written. */
  ghost predicate WriteStep(s: State, t: State, buffer: seq<Sector>, count: nat, start: int, r: int)
    requires s.Valid()
  {
    if s.info.freeClusterCount < count then
      r == -1 && t == s
    else
      && 0 < count && s.CanWrite(count, start)
      && if Full(s, count, start) then
           r == -2 && Placed(s.Charge(count), t, buffer, count, start)
         else
           && r == s.Plan(start)[0]
           && exists u :: Placed(s.Charge(count), u, buffer, count, start) && t == u.GiveBack(Orphans(s, count, start))
  }

  /** What the freeing loop of a deletion does to the table. */
  ghost predicate Removed(s: State, t: State, start: int)
    requires s.Valid()
  {
    && start in s.chains
    && Freed(s.fat, t.fat, s.chains[start])
    && t == s.(fat := t.fat, chains := s.chains - {start})
  }

  /** The search start goes back to the deleted head, when that is lower. */
  ghost function Lowered(s: State, start: u32): State {
    if start < s.info.clusterSearchStart then s.(info := s.info.(clusterSearchStart := start)) else s
  }

  /** Deletes the chain at start and gives its clusters back. */
  ghost predicate DeleteStep(s: State, t: State, start: u32)
    requires s.Valid()
  {
    exists u :: Removed(s, u, start) && t == Lowered(u, start).GiveBack(|s.chains[start]|)
  }

  // ----- The clusters of a write -----

  /** A head is on its own chain only. */
  lemma OwnerOfHead(s: State, h: int)
    requires s.Valid() && h in s.chains
    ensures Owned(s.chains, h) && OwnerOf(s.chains, h) == h
    ensures s.Kept(h) == [] && !s.StartsNew(h) && s.Plan(h) == s.chains[h]
  {
    var p := s.chains[h];
    assert p[0] == h && h in p;
    ChainIsUsed(s.fat, s.vol.totalClusters, p, 0);
    assert OwnerOf(s.chains, h) != h ==> Disjoint(s.chains[OwnerOf(s.chains, h)], p);
  }

  /** A cluster on a chain is used, so a write there goes along the rest of that chain. */
  lemma OverwritePlan(s: State, start: int)
    requires s.Valid() && Owned(s.chains, start)
    ensures !s.StartsNew(start)
    ensures var h, plan := OwnerOf(s.chains, start), s.Plan(start);
      && s.chains[h] == s.Kept(start) + plan && plan != [] && plan[0] == start && s.Head(start) == h
      && Chain(s.fat, s.vol.totalClusters, plan)
  {
    var p, k := s.chains[OwnerOf(s.chains, start)], |s.Kept(start)|;
    ChainIsUsed(s.fat, s.vol.totalClusters, p, k);
    ChainTail(s.fat, s.vol.totalClusters, p, k);
    assert p == p[..k] + p[k..];
  }

  /** Behind the first cluster of a new chain come the other free ones from lo on. */
  lemma FreshPlan(f: Fat, lo: nat, n: int, plan: Path)
    requires 2 <= n <= |f| && f[0] != 0 && f[1] != 0
    requires plan != [] && 2 <= plan[0] < n && f[plan[0]] == 0
    requires ListsFree(f[plan[0] := END_MARK], lo, n, plan[1..])
    ensures InData(n, plan) && Distinct(plan)
    ensures forall i {:trigger f[plan[i]]} | 0 <= i < |plan| :: f[plan[i]] == 0
  {
    forall i | 0 < i < |plan|
      ensures 2 <= plan[i] < n && f[plan[i]] == 0 && plan[i] != plan[0]
    {
      assert plan[1..][i - 1] in plan[1..];
    }
    forall i, j | 0 <= i < j < |plan| ensures plan[i] != plan[j] {
      if 0 < i { assert plan[1..][i - 1] < plan[1..][j - 1]; }
    }
  }

  lemma RestAscends(p: Path)
    requires p != [] && Ascending(p)
    ensures Ascending(p[1..]) && forall c | c in p[1..] :: p[0] < c
  {
    var rest := p[1..];
    forall i, j | 0 <= i < j < |rest| ensures rest[i] < rest[j] {
      assert p[i + 1] < p[j + 1];
    }
    forall c | c in rest ensures p[0] < c {
      var i :| 0 <= i < |rest| && rest[i] == c;
      assert p[0] < p[i + 1];
    }
  }

  /** The first free cluster leaves the others behind it. */
  lemma FreeFromFirst(f: Fat, lo: nat, n: int)
    requires n <= |f| && FreeFrom(f, lo, n) != []
    ensures var plan := FreeFrom(f, lo, n);
      && lo <= plan[0] < n && f[plan[0]] == 0 && ListsFree(f[plan[0] := END_MARK], plan[0], n, plan[1..])
  {
    FreeFromIsComplete(f, lo, n);
    var plan := FreeFrom(f, lo, n);
    var first, rest := plan[0], plan[1..];
    assert plan == [first] + rest && first in plan;
    RestAscends(plan);
    forall c ensures c in rest <==> first <= c < n && f[first := END_MARK][c] == 0 {
      assert c in plan <==> c == first || c in rest;
      assert c in plan <==> lo <= c < n && f[c] == 0;
      assert c in rest ==> first < c;
    }
  }

  /** Where the searches of a write at start begin, once its first cluster is chosen. */
  ghost function SearchedFrom(s: State, start: int): nat
    requires s.Valid() && s.Plan(start) != []
  {
    if start == NEW_CHAIN then (var c: int := s.Plan(start)[0]; if c < 0 then 0 else c)
    else SearchFrom(s.info.clusterSearchStart)
  }

  /** The plan of a write at a free cluster is made of free clusters. */
  lemma NewPlan(s: State, start: int)
    requires s.Valid() && s.StartsNew(start) && s.Plan(start) != []
    ensures var plan := s.Plan(start);
      && InData(s.vol.totalClusters, plan) && Distinct(plan)
      && (forall i {:trigger s.fat[plan[i]]} | 0 <= i < |plan| :: s.fat[plan[i]] == 0)
      && ListsFree(s.fat[plan[0] := END_MARK], SearchedFrom(s, start), s.vol.totalClusters, plan[1..])
      && (start != NEW_CHAIN ==> plan[0] == start)
  {
    var n, lo, plan := s.vol.totalClusters, SearchFrom(s.info.clusterSearchStart), s.Plan(start);
    if start == NEW_CHAIN {
      FreeFromFirst(s.fat, lo, n);
    } else {
      FreeFromIsComplete(s.fat[start := END_MARK], lo, n);
      assert plan[1..] == FreeFrom(s.fat[start := END_MARK], lo, n);
    }
    FreshPlan(s.fat, SearchedFrom(s, start), n, plan);
  }

  /** The raw entries of a chain, which carry no reserved bits in a sound table. */
  lemma ChainEntries(f: Fat, n: int, chains: map<int, Path>, p: Path)
    requires Sound(f, n, chains) && Chain(f, n, p)
    ensures Distinct(p)
    ensures forall i | 0 <= i < |p| :: f[p[i]] != 0 && (i + 1 < |p| ==> f[p[i]] == p[i + 1])
  {
    WalkIsAcyclic(f, n, p[0], p);
    forall i | 0 <= i < |p|
      ensures f[p[i]] != 0 && (i + 1 < |p| ==> f[p[i]] == p[i + 1])
    {
      ChainIsUsed(f, n, p, i);
    }
  }

  /** The plan of a write meets what the writing loop needs. */
  lemma PlanIsGood(s: State, count: int, start: int)
    requires s.Valid() && s.CanWrite(count, start)
    ensures var plan := s.Plan(start);
      && s.vol.IsPlan(s.fat, SearchedFrom(s, start), plan, s.StartsNew(start), count) && Distinct(plan)
      && (start != NEW_CHAIN ==> plan[0] == start)
      && (!s.StartsNew(start) ==> Chain(s.fat, s.vol.totalClusters, plan))
  {
    var plan := s.Plan(start);
    if s.StartsNew(start) {
      NewPlan(s, start);
    } else {
      OverwritePlan(s, start);
      ChainEntries(s.fat, s.vol.totalClusters, s.chains, plan);
    }
  }

  /** The first cluster of a new chain is on no chain yet. */
  lemma NewHead(s: State, start: int)
    requires s.Valid() && s.StartsNew(start) && s.Plan(start) != []
    ensures s.Head(start) !in s.chains && s.Kept(start) == []
  {
    NewPlan(s, start);
    var h := s.Head(start);
    if h in s.chains {
      ChainIsUsed(s.fat, s.vol.totalClusters, s.chains[h], 0);
    }
    if Owned(s.chains, start) {
      OverwritePlan(s, start);
    }
  }

  /** What a write writes behind the clusters it keeps. */
  lemma PlanIsWritable(s: State, count: nat, start: int, num: nat)
    requires s.Valid() && s.CanWrite(count, start) && 0 < num <= |s.Plan(start)|
    ensures Writable(s.fat, s.vol.totalClusters, s.chains, s.Head(start), s.Kept(start), s.Plan(start)[..num],
                     s.Old(start))
    ensures Distinct(s.Plan(start)) && InData(s.vol.totalClusters, s.Plan(start))
    ensures InData(s.vol.totalClusters, s.Kept(start)) && InData(s.vol.totalClusters, s.Old(start))
  {
    var plan, p := s.Plan(start), s.Plan(start)[..num];
    PlanIsGood(s, count, start);
    if s.StartsNew(start) {
      NewPlan(s, start);
      NewHead(s, start);
    } else {
      OverwritePlan(s, start);
      forall i | 0 <= i < |p| ensures p[i] in s.Old(start) {
        assert plan[i] in plan;
      }
    }
  }

  // ----- Every step keeps a partition valid -----

  lemma OldIsUsed(s: State, start: int)
    requires s.Valid() && !s.StartsNew(start) && s.Plan(start) != []
    ensures forall i | 0 <= i < |s.Old(start)| :: s.fat[s.Old(start)[i]] != 0
  {
    OverwritePlan(s, start);
    var plan := s.Plan(start);
    forall i | 0 <= i < |plan| ensures s.fat[plan[i]] != 0 {
      ChainIsUsed(s.fat, s.vol.totalClusters, plan, i);
    }
  }

  /** A write keeps the table sound, and its free clusters are those that were free and those
      of the old chain, less those written. */
  lemma PlacedTable(s: State, t: State, buffer: seq<Sector>, count: nat, start: int)
    requires s.Valid() && s.CanWrite(count, start) && Placed(s, t, buffer, count, start)
    ensures t.Valid()
    ensures t.FreeClusters() == s.FreeClusters() + |s.Old(start)| - Filling(s, count, start)
  {
    var n, plan, num, old_ := s.vol.totalClusters, s.Plan(start), Filling(s, count, start), s.Old(start);
    PlanIsWritable(s, count, start, num);
    RelinkKeepsSound(s.fat, t.fat, n, s.chains, s.Head(start), s.Kept(start), plan[..num], old_);
    if !s.StartsNew(start) { OldIsUsed(s, start); }
    RelinkCount(s.fat, t.fat, n, plan[..num], old_);
  }

  /** What the chain that is written holds afterwards. */
  ghost function Written(s: State, buffer: seq<Sector>, count: nat, start: int): seq<Sector>
    requires s.Valid() && InData(s.vol.totalClusters, s.Kept(start))
    requires 0 <= s.vol.Span(Filling(s, count, start)) <= |buffer|
  {
    s.vol.Data(s.disk, s.Kept(start)) + buffer[..s.vol.Span(Filling(s, count, start))]
  }

  lemma KeptContents(s: State, t: State, buffer: seq<Sector>, count: nat, start: int)
    requires s.Valid() && s.CanWrite(count, start) && Placed(s, t, buffer, count, start)
    ensures InData(s.vol.totalClusters, s.Kept(start))
    ensures s.vol.Data(t.disk, s.Kept(start)) == s.vol.Data(s.disk, s.Kept(start))
  {
    var num, kept := Filling(s, count, start), s.Kept(start);
    var p := s.Plan(start)[..num];
    PlanIsWritable(s, count, start, num);
    forall i | 0 <= i < |kept| ensures kept[i] !in p {
      KeptIsApart(s.fat, s.vol.totalClusters, s.chains, s.Head(start), kept, p, s.Old(start), i);
    }
    s.vol.SparesData(s.disk, t.disk, p, kept);
  }

  lemma JoinedContents(vol: Volume, disk: seq<Sector>, buffer: seq<Sector>, kept: Path, p: Path)
    requires vol.Stores(disk, buffer, p) && InData(vol.totalClusters, kept) && vol.Span(|p|) <= |buffer|
    ensures InData(vol.totalClusters, kept + p) && 0 <= vol.Span(|p|)
    ensures vol.Data(disk, kept + p) == vol.Data(disk, kept) + buffer[..vol.Span(|p|)]
  {
    vol.SpanUpTo(0, |p|);
    vol.DataConcat(disk, kept, p);
    vol.StoredData(disk, buffer, p, |p|);
    assert p[..|p|] == p;
  }

  /** The chain that is written holds what its kept clusters held, and then the buffer. */
  lemma PlacedContents(s: State, t: State, buffer: seq<Sector>, count: nat, start: int)
    requires s.Valid() && s.CanWrite(count, start) && Placed(s, t, buffer, count, start)
    ensures InData(s.vol.totalClusters, s.Kept(start)) && 0 <= s.vol.Span(Filling(s, count, start))
    ensures var p := s.Kept(start) + s.Plan(start)[..Filling(s, count, start)];
      InData(s.vol.totalClusters, p) && s.vol.Data(t.disk, p) == Written(s, buffer, count, start)
  {
    var num, kept := Filling(s, count, start), s.Kept(start);
    var p := s.Plan(start)[..num];
    KeptContents(s, t, buffer, count, start);
    PlanIsWritable(s, count, start, num);
    JoinedContents(s.vol, t.disk, buffer, kept, p);
  }

  /** No other chain's contents change. */
  lemma PlacedSparesFile(s: State, t: State, buffer: seq<Sector>, count: nat, start: int, g: int)
    requires s.Valid() && s.CanWrite(count, start) && Placed(s, t, buffer, count, start)
    requires g in s.chains && g != s.Head(start)
    ensures s.vol.Data(t.disk, s.chains[g]) == s.vol.Data(s.disk, s.chains[g])
  {
    var num, kept, old_ := Filling(s, count, start), s.Kept(start), s.Old(start);
    var p := s.Plan(start)[..num];
    PlanIsWritable(s, count, start, num);
    RelinkSparesOthers(s.fat, t.fat, s.vol.totalClusters, s.chains, s.Head(start), kept, p, old_, g);
    var q := s.chains[g];
    assert forall c | c in p :: c in kept + p;
    s.vol.SparesData(s.disk, t.disk, p, q);
  }

  lemma FilesUpdate(vol: Volume, disk0: seq<Sector>, disk: seq<Sector>, chains: map<int, Path>, h: int, p: Path)
    requires vol.Fits(disk0) && vol.Fits(disk) && InData(vol.totalClusters, p)
    requires forall g | g in chains :: InData(vol.totalClusters, chains[g])
    requires forall g | g in chains && g != h :: vol.Data(disk, chains[g]) == vol.Data(disk0, chains[g])
    ensures vol.FilesOf(disk, chains[h := p]) == vol.FilesOf(disk0, chains)[h := vol.Data(disk, p)]
  {
    var a, b := vol.FilesOf(disk, chains[h := p]), vol.FilesOf(disk0, chains)[h := vol.Data(disk, p)];
    assert a.Keys == b.Keys;
    forall g | g in a ensures a[g] == b[g] {
      if g != h { assert chains[h := p][g] == chains[g]; }
    }
  }

  /** A write changes the file it writes and no other. */
  lemma PlacedFiles(s: State, t: State, buffer: seq<Sector>, count: nat, start: int)
    requires s.Valid() && t.Valid() && s.CanWrite(count, start) && Placed(s, t, buffer, count, start)
    ensures InData(s.vol.totalClusters, s.Kept(start)) && 0 <= s.vol.Span(Filling(s, count, start))
    ensures t.Files() == s.Files()[s.Head(start) := Written(s, buffer, count, start)]
  {
    PlacedContents(s, t, buffer, count, start);
    forall g | g in s.chains && g != s.Head(start)
      ensures s.vol.Data(t.disk, s.chains[g]) == s.vol.Data(s.disk, s.chains[g])
    {
      PlacedSparesFile(s, t, buffer, count, start, g);
    }
    var p := s.Kept(start) + s.Plan(start)[..Filling(s, count, start)];
    FilesUpdate(s.vol, s.disk, t.disk, s.chains, s.Head(start), p);
  }

  /** Charging a write to FSInfo's count changes neither the files nor what the write will do. */
  lemma ChargeKeepsValid(s: State, count: nat, start: int)
    requires s.Valid() && count <= s.info.freeClusterCount
    ensures var t := s.Charge(count);
      && t.Valid() && t.Files() == s.Files() && t.FreeClusters() == s.FreeClusters()
      && t.Plan(start) == s.Plan(start) && t.Kept(start) == s.Kept(start)
  {
    assert s.StartsNew(start) == s.Charge(count).StartsNew(start);
  }

  /** What a caller sees of a finished write: the files and the free clusters. */
  ghost predicate WriteSeen(s: State, t: State, buffer: seq<Sector>, count: nat, start: int)
    requires s.Valid() && t.Valid()
  {
    var num := Filling(s, count, start);
    && 0 < num <= |s.Plan(start)| && 0 <= s.vol.Span(num) <= |buffer| && InData(s.vol.totalClusters, s.Kept(start))
    && t.Files() == s.Files()[s.Head(start) := Written(s, buffer, count, start)]
    && t.FreeClusters() == s.FreeClusters() + |s.Old(start)| - num
  }

  /** The chains and the table decide what a write at start is about. */
  lemma SameStart(s: State, c: State, start: int)
    requires s.Valid() && c.Valid() && c == s.(info := c.info) && c.info.clusterSearchStart == s.info.clusterSearchStart
    ensures c.StartsNew(start) == s.StartsNew(start) && c.Plan(start) == s.Plan(start)
    ensures c.Kept(start) == s.Kept(start) && c.Old(start) == s.Old(start)
    ensures s.Plan(start) != [] ==> c.Head(start) == s.Head(start)
  {
    assert Owned(s.chains, start) ==> OwnerOf(s.chains, start) == OwnerOf(c.chains, start);
  }

  lemma PlacedSeen(s: State, u: State, buffer: seq<Sector>, count: nat, start: int)
    requires s.Valid() && count <= s.info.freeClusterCount && s.CanWrite(count, start)
    requires s.Charge(count).Valid() && Placed(s.Charge(count), u, buffer, count, start)
    ensures u.Valid() && u.vol == s.vol && u.transfer == s.transfer && WriteSeen(s, u, buffer, count, start)
    ensures u.info.freeClusterCount == s.info.freeClusterCount - count && u.storedInfo == s.storedInfo
  {
    var c := s.Charge(count);
    ChargeKeepsValid(s, count, start);
    SameStart(s, c, start);
    PlacedTable(c, u, buffer, count, start);
    PlacedFiles(c, u, buffer, count, start);
  }

  /** The count after a flush of FSInfo with a given one. */
  function Flushed(transfer: InfoTransfer, stored: FsInfo, count: int): u32 {
    if transfer.Store? then count % TWO_32 else stored.freeClusterCount
  }

  lemma SameOrphans(s: State, c: State, count: nat, start: int)
    requires s.Valid() && c.Valid() && c == s.(info := c.info) && c.info.clusterSearchStart == s.info.clusterSearchStart
    ensures Orphans(c, count, start) == Orphans(s, count, start) && Full(c, count, start) == Full(s, count, start)
  {
    SameStart(s, c, start);
  }

  lemma GiveBackKeepsValid(s: State, freed: nat)
    requires s.Valid()
    ensures var t := s.GiveBack(freed);
      && t.Valid() && t.Files() == s.Files() && t.FreeClusters() == s.FreeClusters()
      && t.vol == s.vol && t.transfer == s.transfer && t.chains == s.chains
      && t.info.freeClusterCount == Flushed(s.transfer, s.storedInfo, s.info.freeClusterCount + freed)
  {
  }

  /** What FSInfo's count is after a write. */
  ghost function CountAfter(s: State, count: nat, start: int): int
    requires s.Valid()
  {
    if count > s.info.freeClusterCount then s.info.freeClusterCount
    else if Full(s, count, start) then s.info.freeClusterCount - count
    else Flushed(s.transfer, s.storedInfo, s.info.freeClusterCount - count + Orphans(s, count, start))
  }

  lemma GivenBackSeen(s: State, u: State, t: State, buffer: seq<Sector>, count: nat, start: int)
    requires s.Valid() && u.Valid() && count <= s.info.freeClusterCount && 0 <= Orphans(s, count, start)
    requires u.vol == s.vol && u.transfer == s.transfer && u.storedInfo == s.storedInfo
    requires u.info.freeClusterCount == s.info.freeClusterCount - count
    requires WriteSeen(s, u, buffer, count, start) && !Full(s, count, start)
    requires t == u.GiveBack(Orphans(s, count, start))
    ensures t.Valid() && t.vol == s.vol && t.transfer == s.transfer && WriteSeen(s, t, buffer, count, start)
    ensures t.info.freeClusterCount == CountAfter(s, count, start)
  {
    GiveBackKeepsValid(u, Orphans(s, count, start));
  }

  /** A write gives a valid partition, changes its own file and no other, and moves the free
      count by its transfer of FSInfo; a refused write changes nothing. */
  lemma WriteEffect(s: State, t: State, buffer: seq<Sector>, count: nat, start: int, r: int)
    requires s.Valid() && WriteStep(s, t, buffer, count, start, r)
    ensures t.Valid() && t.vol == s.vol && t.transfer == s.transfer
    ensures if count > s.info.freeClusterCount then t == s else WriteSeen(s, t, buffer, count, start)
    ensures t.info.freeClusterCount == CountAfter(s, count, start)
  {
    if count <= s.info.freeClusterCount {
      ChargeKeepsValid(s, count, start);
      if Full(s, count, start) {
        PlacedSeen(s, t, buffer, count, start);
      } else {
        var u :| Placed(s.Charge(count), u, buffer, count, start) && t == u.GiveBack(Orphans(s, count, start));
        PlacedSeen(s, u, buffer, count, start);
        GivenBackSeen(s, u, t, buffer, count, start);
      }
    }
  }

  lemma RemovedTable(s: State, u: State, start: int)
    requires s.Valid() && Removed(s, u, start)
    ensures u.Valid() && u.Files() == s.Files() - {start}
    ensures u.FreeClusters() == s.FreeClusters() + |s.chains[start]|
  {
    var n, p := s.vol.totalClusters, s.chains[start];
    FreeingKeepsSound(s.fat, u.fat, n, s.chains, start);
    WalkIsAcyclic(s.fat, n, start, p);
    forall i | 0 <= i < |p| ensures s.fat[p[i]] != 0 {
      ChainIsUsed(s.fat, n, p, i);
    }
    FreeingCount(s.fat, u.fat, n, p);
  }

  lemma LoweringKeepsValid(s: State, start: u32)
    requires s.Valid() && start < s.vol.totalClusters
    ensures var t := Lowered(s, start);
      && t.Valid() && t.Files() == s.Files() && t.FreeClusters() == s.FreeClusters()
      && t.info.freeClusterCount == s.info.freeClusterCount
  {
  }

  lemma LoweredGivenBack(u: State, t: State, start: u32, freed: nat)
    requires u.Valid() && start < u.vol.totalClusters && t == Lowered(u, start).GiveBack(freed)
    ensures t.Valid() && t.Files() == u.Files() && t.FreeClusters() == u.FreeClusters()
    ensures t.vol == u.vol && t.transfer == u.transfer
    ensures t.info.freeClusterCount == Flushed(u.transfer, u.storedInfo, u.info.freeClusterCount + freed)
  {
    LoweringKeepsValid(u, start);
    GiveBackKeepsValid(Lowered(u, start), freed);
  }

  lemma DeletedSeen(s: State, u: State, t: State, start: u32, freed: nat)
    requires u.Valid() && start < u.vol.totalClusters && t == Lowered(u, start).GiveBack(freed)
    requires u == s.(fat := u.fat, chains := u.chains)
    ensures t.Valid() && t.Files() == u.Files() && t.FreeClusters() == u.FreeClusters()
    ensures t.vol == s.vol && t.transfer == s.transfer
    ensures t.info.freeClusterCount == Flushed(s.transfer, s.storedInfo, s.info.freeClusterCount + freed)
  {
    LoweredGivenBack(u, t, start, freed);
  }

  /** A deletion gives a valid partition without its file, and moves the free count likewise. */
  lemma DeleteEffect(s: State, t: State, start: u32)
    requires s.Valid() && DeleteStep(s, t, start)
    ensures t.Valid() && t.vol == s.vol && t.transfer == s.transfer && start in s.chains
    ensures t.Files() == s.Files() - {start}
    ensures t.FreeClusters() == s.FreeClusters() + |s.chains[start]|
    ensures t.info.freeClusterCount == Flushed(s.transfer, s.storedInfo, s.info.freeClusterCount + |s.chains[start]|)
  {
    var u :| Removed(s, u, start) && t == Lowered(u, start).GiveBack(|s.chains[start]|);
    RemovedTable(s, u, start);
    ChainIsUsed(s.fat, s.vol.totalClusters, s.chains[start], 0);
    DeletedSeen(s, u, t, start, |s.chains[start]|);
  }

  /** Where entry 0 was given back, with FSInfo stored, the next new chain begins at cluster 0. */
  lemma NextTakesZero(u: State, freed: nat)
    requires 0 < u.vol.totalClusters <= |u.fat| && u.fat[0] == 0 && u.transfer.Store?
    ensures var t := Lowered(u, 0).GiveBack(freed);
      && SearchFrom(t.info.clusterSearchStart) == 0
      && FreeFrom(t.fat, 0, t.vol.totalClusters) != [] && FreeFrom(t.fat, 0, t.vol.totalClusters)[0] == 0
  {
  }

  // ----- Runs -----

  datatype Call =
    | Write(buffer: seq<Sector>, count: nat, start: int, r: int)
    | Delete(head: u32)

  ghost predicate Step(s: State, call: Call, t: State)
    requires s.Valid()
  {
    match call
    case Write(buffer, count, start, r) => WriteStep(s, t, buffer, count, start, r)
    case Delete(head) => DeleteStep(s, t, head)
  }

  ghost predicate Goes(s: State, call: Call, t: State) {
    s.Valid() ==> Step(s, call, t)
  }

  /** The states a partition goes through under a sequence of calls, from a valid one on. */
  ghost predicate Run(trace: seq<State>, calls: seq<Call>) {
    && |trace| == |calls| + 1
    && trace[0].Valid()
    && (forall i {:trigger calls[i]} | 0 <= i < |calls| :: Goes(trace[i], calls[i], trace[i + 1]))
  }

  /** One more call makes a run longer. */
  lemma RunGoesOn(trace: seq<State>, calls: seq<Call>, call: Call, t: State)
    requires Run(trace, calls) && trace[|calls|].Valid() && Step(trace[|calls|], call, t)
    ensures Run(trace + [t], calls + [call])
  {
    var trace1, calls1 := trace + [t], calls + [call];
    assert trace1[0] == trace[0];
    forall i | 0 <= i < |calls1| ensures Goes(trace1[i], calls1[i], trace1[i + 1]) {
      assert trace1[i] == trace[i];
      if i < |calls| {
        assert calls1[i] == calls[i] && trace1[i + 1] == trace[i + 1];
        assert Goes(trace[i], calls[i], trace[i + 1]);
      }
    }
  }

  lemma StepKeepsValid(s: State, call: Call, t: State)
    requires s.Valid() && Step(s, call, t)
    ensures t.Valid() && t.vol == s.vol && t.transfer == s.transfer
  {
    match call
    case Write(buffer, count, start, r) => WriteEffect(s, t, buffer, count, start, r);
    case Delete(head) => DeleteEffect(s, t, head);
  }

  /** Every state that a run comes through is valid: its chains are acyclic, disjoint and
      account for every used cluster, after refused and failed writes as well. */
  lemma {:induction false} RunKeepsValid(trace: seq<State>, calls: seq<Call>, k: nat)
    requires Run(trace, calls) && k <= |calls|
    ensures trace[k].Valid() && trace[k].vol == trace[0].vol && trace[k].transfer == trace[0].transfer
  {
    if k > 0 {
      RunKeepsValid(trace, calls, k - 1);
      assert Goes(trace[k - 1], calls[k - 1], trace[k]);
      StepKeepsValid(trace[k - 1], calls[k - 1], trace[k]);
    }
  }

  /** What a call does to the files. */
  datatype Event = Stored(head: int, data: seq<Sector>) | Dropped(head: int) | Nothing {
    predicate Concerns(h: int) {
      !Nothing? && head == h
    }
  }

  ghost function EventOf(s: State, call: Call): Event
    requires s.Valid()
  {
    match call
    case Delete(head) => Dropped(head)
    case Write(buffer, count, start, r) =>
      if count > s.info.freeClusterCount || s.Plan(start) == [] || !InData(s.vol.totalClusters, s.Kept(start))
        || !(0 <= s.vol.Span(Filling(s, count, start)) <= |buffer|)
      then Nothing
      else Stored(s.Head(start), Written(s, buffer, count, start))
  }

  ghost function Apply(files: map<int, seq<Sector>>, e: Event): map<int, seq<Sector>> {
    match e
    case Stored(h, data) => files[h := data]
    case Dropped(h) => files - {h}
    case Nothing => files
  }

  /** One step changes the files by its event and no more. */
  lemma StepIsEvent(s: State, call: Call, t: State)
    requires s.Valid() && Step(s, call, t)
    ensures t.Valid() && t.Files() == Apply(s.Files(), EventOf(s, call))
  {
    match call
    case Write(buffer, count, start, r) => WriteEffect(s, t, buffer, count, start, r);
    case Delete(head) => DeleteEffect(s, t, head);
  }

  /** What a write to a head or to a new chain stores is the buffer alone. */
  lemma WrittenAtHead(s: State, buffer: seq<Sector>, count: nat, start: int)
    requires s.Valid() && count <= s.info.freeClusterCount && s.CanWrite(count, start)
    requires start in s.chains || s.StartsNew(start)
    requires 0 <= s.vol.Span(Filling(s, count, start)) <= |buffer|
    ensures EventOf(s, Write(buffer, count, start, 0)) ==
      Stored(s.Plan(start)[0], buffer[..s.vol.Span(Filling(s, count, start))])
  {
    if s.StartsNew(start) {
      NewHead(s, start);
    } else {
      OwnerOfHead(s, start);
    }
  }

  /** The events of the first k calls of a run, in order. */
  ghost function Log(trace: seq<State>, calls: seq<Call>, k: nat): (log: seq<Event>)
    requires Run(trace, calls) && k <= |calls|
    ensures |log| == k
  {
    if k == 0 then []
    else
      RunKeepsValid(trace, calls, k - 1);
      Log(trace, calls, k - 1) + [EventOf(trace[k - 1], calls[k - 1])]
  }

  ghost predicate UntouchedFrom(log: seq<Event>, h: int, k: nat) {
    forall j | k <= j < |log| :: !log[j].Concerns(h)
  }

  /** Event i is the last one that concerns h, and it stores data there. */
  ghost predicate LastStored(log: seq<Event>, h: int, i: int, data: seq<Sector>) {
    0 <= i < |log| && log[i] == Stored(h, data) && UntouchedFrom(log, h, i + 1)
  }

  /** What the last k events say about head h, given the files the log ends in. */
  ghost predicate FilesTell(before: map<int, seq<Sector>>, log: seq<Event>, after: map<int, seq<Sector>>, h: int) {
    && (h in after <==> (exists i, data :: LastStored(log, h, i, data)) || (h in before && UntouchedFrom(log, h, 0)))
    && (forall i, data | LastStored(log, h, i, data) :: after[h] == data)
    && (h in before && UntouchedFrom(log, h, 0) ==> after[h] == before[h])
  }

  lemma OneMoreEvent(before: map<int, seq<Sector>>, log: seq<Event>, after: map<int, seq<Sector>>, h: int, e: Event)
    requires FilesTell(before, log, after, h)
    ensures FilesTell(before, log + [e], Apply(after, e), h)
  {
    var log1 := log + [e];
    assert forall j | 0 <= j < |log| :: log1[j] == log[j];
    assert log1[|log|] == e;
    if e.Concerns(h) {
      if e.Stored? {
        assert LastStored(log1, h, |log|, e.data);
      }
      assert forall i, data :: LastStored(log1, h, i, data) ==> i == |log|;
    } else {
      forall i, data ensures LastStored(log1, h, i, data) <==> LastStored(log, h, i, data) {
        if LastStored(log, h, i, data) {
          forall j | i + 1 <= j < |log1| ensures !log1[j].Concerns(h) {
            assert j < |log| ==> !log[j].Concerns(h);
          }
        }
        if LastStored(log1, h, i, data) {
          forall j | i + 1 <= j < |log| ensures !log[j].Concerns(h) {
            assert !log1[j].Concerns(h);
          }
        }
      }
      assert UntouchedFrom(log1, h, 0) <==> UntouchedFrom(log, h, 0) by {
        if UntouchedFrom(log1, h, 0) {
          forall j | 0 <= j < |log| ensures !log[j].Concerns(h) {
            assert !log1[j].Concerns(h);
          }
        }
      }
    }
  }

  /** The files after a log of events. */
  ghost function Replay(files: map<int, seq<Sector>>, log: seq<Event>): map<int, seq<Sector>> {
    if log == [] then files else Apply(Replay(files, log[..|log| - 1]), log[|log| - 1])
  }

  /** A head is live exactly when the last event that concerns it stored something there,
      or when it was live all along; and it holds just that. */
  lemma {:induction false} LastWriteWins(files: map<int, seq<Sector>>, log: seq<Event>, h: int)
    ensures FilesTell(files, log, Replay(files, log), h)
  {
    if log != [] {
      var k := |log| - 1;
      LastWriteWins(files, log[..k], h);
      OneMoreEvent(files, log[..k], Replay(files, log[..k]), h, log[k]);
      assert log == log[..k] + [log[k]];
    }
  }

  lemma ReplayMore(files: map<int, seq<Sector>>, log: seq<Event>, e: Event)
    ensures Replay(files, log + [e]) == Apply(Replay(files, log), e)
  {
    assert (log + [e])[..|log|] == log;
  }

  /** At every moment of a run the files are what its log so far makes of the first ones. */
  lemma {:induction false} RunIsReplay(trace: seq<State>, calls: seq<Call>, k: nat)
    requires Run(trace, calls) && k <= |calls|
    ensures trace[k].Valid()
    ensures trace[k].Files() == Replay(trace[0].Files(), Log(trace, calls, k))
  {
    if k > 0 {
      RunIsReplay(trace, calls, k - 1);
      assert Goes(trace[k - 1], calls[k - 1], trace[k]);
      var e := EventOf(trace[k - 1], calls[k - 1]);
      StepIsEvent(trace[k - 1], calls[k - 1], trace[k]);
      ReplayMore(trace[0].Files(), Log(trace, calls, k - 1), e);
    }
  }

  // ----- The free count -----

  /** How many clusters are free after a call. */
  ghost function FreeAfter(s: State, call: Call): int
    requires s.Valid()
  {
    match call
    case Delete(head) => s.FreeClusters() + if head in s.chains then |s.chains[head]| else 0
    case Write(_, count, start, _) =>
      if count > s.info.freeClusterCount then s.FreeClusters()
      else s.FreeClusters() + |s.Old(start)| - Filling(s, count, start)
  }

  /** A balanced count stays balanced. With FSInfo stored that takes a deletion, a refused
      write, or one that takes free clusters and finds them all. With FSInfo loaded, the count
      on the disk must happen to be right, unless nothing is loaded. */
  ghost predicate KeepsCount(s: State, call: Call)
    requires s.Valid()
  {
    match call
    case Delete(_) => s.transfer.Store? || s.storedInfo.freeClusterCount == FreeAfter(s, call)
    case Write(_, count, start, _) =>
      || count > s.info.freeClusterCount
      || (if Full(s, count, start) then count == |s.Plan(start)|
          else if s.transfer.Store? then s.StartsNew(start)
          else s.storedInfo.freeClusterCount == FreeAfter(s, call))
  }

  lemma FreeClustersFit(s: State)
    requires s.Valid()
    ensures s.FreeClusters() < s.vol.totalClusters
  {
    BoundedCount(s.vol.totalClusters, FreeSet(s.fat, s.vol.totalClusters));
  }

  lemma CountAfterDelete(s: State, t: State, head: u32)
    requires s.Valid() && DeleteStep(s, t, head) && s.Balanced()
    ensures t.Valid() && (t.Balanced() <==> KeepsCount(s, Delete(head)))
  {
    DeleteEffect(s, t, head);
    FreeClustersFit(t);
    assert t.FreeClusters() == FreeAfter(s, Delete(head));
  }

  /** The free clusters after a write, by what is left of FSInfo's count. */
  lemma FreeAfterWrite(s: State, buffer: seq<Sector>, count: nat, start: int, r: int)
    requires s.Valid() && s.Balanced() && count <= s.info.freeClusterCount
    ensures FreeAfter(s, Write(buffer, count, start, r)) ==
      var left := s.info.freeClusterCount - count;
      if Full(s, count, start) then left + count - |s.Plan(start)|
      else left + Orphans(s, count, start) + if s.StartsNew(start) then 0 else count
  {
    assert |s.Old(start)| == if s.StartsNew(start) then 0 else |s.Plan(start)|;
  }

  lemma CountsAgreeWhenFull(s: State, buffer: seq<Sector>, count: nat, start: int, r: int)
    requires s.Valid() && s.Balanced() && 0 < count <= s.info.freeClusterCount && Full(s, count, start)
    ensures CountAfter(s, count, start) == FreeAfter(s, Write(buffer, count, start, r)) <==> count == |s.Plan(start)|
  {
    FreeAfterWrite(s, buffer, count, start, r);
  }

  lemma FlushedFits(stored: FsInfo, count: int)
    requires 0 <= count < TWO_32
    ensures Flushed(Store, stored, count) == count
  {
  }

  lemma CountAfterStored(s: State, count: nat, start: int)
    requires s.Valid() && count <= s.info.freeClusterCount && !Full(s, count, start) && s.transfer.Store?
    requires 0 <= s.info.freeClusterCount - count + Orphans(s, count, start) < TWO_32
    ensures CountAfter(s, count, start) == s.info.freeClusterCount - count + Orphans(s, count, start)
  {
    FlushedFits(s.storedInfo, s.info.freeClusterCount - count + Orphans(s, count, start));
  }

  lemma CountsAgreeWhenStored(s: State, buffer: seq<Sector>, count: nat, start: int, r: int)
    requires s.Valid() && s.Balanced() && 0 < count <= s.info.freeClusterCount && 0 <= Orphans(s, count, start)
    requires FreeAfter(s, Write(buffer, count, start, r)) < TWO_32 && !Full(s, count, start) && s.transfer.Store?
    ensures CountAfter(s, count, start) == FreeAfter(s, Write(buffer, count, start, r)) <==> s.StartsNew(start)
  {
    FreeAfterWrite(s, buffer, count, start, r);
    CountAfterStored(s, count, start);
  }

  lemma CountsAgree(s: State, buffer: seq<Sector>, count: nat, start: int, r: int)
    requires s.Valid() && s.Balanced() && 0 < count <= s.info.freeClusterCount && 0 <= Orphans(s, count, start)
    requires 0 <= FreeAfter(s, Write(buffer, count, start, r)) < TWO_32
    ensures CountAfter(s, count, start) == FreeAfter(s, Write(buffer, count, start, r))
      <==> KeepsCount(s, Write(buffer, count, start, r))
  {
    if Full(s, count, start) {
      CountsAgreeWhenFull(s, buffer, count, start, r);
    } else if s.transfer.Store? {
      CountsAgreeWhenStored(s, buffer, count, start, r);
    }
  }

  lemma CountAfterPlaced(s: State, t: State, buffer: seq<Sector>, count: nat, start: int, r: int)
    requires s.Valid() && WriteStep(s, t, buffer, count, start, r) && s.Balanced() && count <= s.info.freeClusterCount
    ensures t.Valid() && (t.Balanced() <==> KeepsCount(s, Write(buffer, count, start, r)))
  {
    WriteEffect(s, t, buffer, count, start, r);
    FreeClustersFit(t);
    CountsAgree(s, buffer, count, start, r);
  }

  lemma CountAfterWrite(s: State, t: State, buffer: seq<Sector>, count: nat, start: int, r: int)
    requires s.Valid() && WriteStep(s, t, buffer, count, start, r) && s.Balanced()
    ensures t.Valid() && (t.Balanced() <==> KeepsCount(s, Write(buffer, count, start, r)))
  {
    FreeClustersFit(s);
    if count > s.info.freeClusterCount {
      assert t == s;
    } else {
      CountAfterPlaced(s, t, buffer, count, start, r);
    }
  }

  lemma CountAfterStep(s: State, call: Call, t: State)
    requires s.Valid() && Step(s, call, t) && s.Balanced()
    ensures t.Valid() && (t.Balanced() <==> KeepsCount(s, call))
  {
    match call
    case Delete(head) => CountAfterDelete(s, t, head);
    case Write(buffer, count, start, r) => CountAfterWrite(s, t, buffer, count, start, r);
  }

  ghost predicate IsRight(s: State) {
    s.Valid() && s.Balanced()
  }

  /** The count is right in the first k + 1 states. */
  ghost predicate RightUpTo(trace: seq<State>, k: nat)
    requires k < |trace|
  {
    IsRight(trace[k]) && (k > 0 ==> RightUpTo(trace, k - 1))
  }

  ghost predicate Keeps(s: State, call: Call) {
    s.Valid() && KeepsCount(s, call)
  }

  /** The first k calls keep the count. */
  ghost predicate KeptUpTo(trace: seq<State>, calls: seq<Call>, k: nat)
    requires k <= |calls| && k < |trace|
  {
    k > 0 ==> Keeps(trace[k - 1], calls[k - 1]) && KeptUpTo(trace, calls, k - 1)
  }

  lemma StepKeepsRight(s: State, call: Call, t: State)
    requires s.Valid() && Step(s, call, t)
    ensures t.Valid() && (IsRight(s) ==> (IsRight(t) <==> Keeps(s, call)))
  {
    StepKeepsValid(s, call, t);
    if s.Balanced() { CountAfterStep(s, call, t); }
  }

  /** The count is right all through a run exactly when every call of it keeps the count. */
  lemma {:induction false} RunKeepsCount(trace: seq<State>, calls: seq<Call>, k: nat)
    requires Run(trace, calls) && k <= |calls| && IsRight(trace[0])
    ensures RightUpTo(trace, k) <==> KeptUpTo(trace, calls, k)
  {
    if k > 0 {
      RunKeepsCount(trace, calls, k - 1);
      RunKeepsValid(trace, calls, k - 1);
      assert Goes(trace[k - 1], calls[k - 1], trace[k]);
      StepKeepsRight(trace[k - 1], calls[k - 1], trace[k]);
    }
  }

  /** As write_fat has it, from an FSInfo that agrees with the disk: the count stays right
      exactly when a write is refused or takes as many clusters as it had to go along. */
  lemma LoadKeepsCount(s: State, call: Call, t: State)
    requires s.Valid() && Step(s, call, t) && s.Balanced() && s.transfer.Load? && s.info == s.storedInfo
    ensures t.Valid()
    ensures t.Balanced() <==>
      match call
      case Delete(_) => false
      case Write(_, count, start, _) => count > s.info.freeClusterCount || count == |s.Plan(start)|
  {
    CountAfterStep(s, call, t);
    if call.Delete? {
      assert s.chains[call.head] != [];
    }
  }

  /** A volume of two free clusters, mounted. */
  ghost function TwoFree(transfer: InfoTransfer): State {
    var fat := [END_MARK, END_MARK, 0, 0];
    State(Volume(0, 1, 4), transfer, fat, FsInfo(2, 2), [[], []], fat, FsInfo(2, 2), map[])
  }

  /** The same after one cluster was written to its first one, with FSInfo loaded. */
  ghost function OneFree(sector: Sector): State {
    var fat := [END_MARK, END_MARK, END_MARK, 0];
    State(Volume(0, 1, 4), Load, fat, FsInfo(2, 2), [sector, []], fat, FsInfo(2, 2), map[2 := [2]])
  }

  lemma SmallSpan(transfer: InfoTransfer)
    ensures var vol := TwoFree(transfer).vol; vol.Span(0) == 0 && vol.Span(1) == 1 && vol.Span(2) == 2
  {
  }

  lemma TwoFreeIsBalanced(transfer: InfoTransfer)
    ensures TwoFree(transfer).Valid() && TwoFree(transfer).Balanced()
  {
    SmallSpan(transfer);
    assert FreeSet(TwoFree(transfer).fat, 4) == {2, 3};
  }

  lemma SmallPlan(transfer: InfoTransfer)
    ensures var s := TwoFree(transfer);
      && s.Valid() && s.StartsNew(NEW_CHAIN) && s.Plan(NEW_CHAIN) == [2, 3] && !Owned(s.chains, NEW_CHAIN)
  {
    TwoFreeIsBalanced(transfer);
    var fat := TwoFree(transfer).fat;
    assert FreeFrom(fat, 4, 4) == [];
    assert FreeFrom(fat, 3, 4) == [3];
    assert FreeFrom(fat, 2, 4) == [2] + FreeFrom(fat, 3, 4);
  }

  lemma SmallTable(sector: Sector)
    ensures Relinked(TwoFree(Load).fat, OneFree(sector).fat, [2], [])
  {
  }

  lemma SmallSectors(sector: Sector)
    ensures var vol, disk, disk1 := TwoFree(Load).vol, TwoFree(Load).disk, OneFree(sector).disk;
      vol.Spares(disk, disk1, [2]) && vol.Stores(disk1, [sector], [2])
  {
    var vol, disk := TwoFree(Load).vol, TwoFree(Load).disk;
    SmallSpan(Load);
    assert vol.Lba(2) == 0 && vol.Chunk([sector], 0) == [sector];
    assert disk[..0] + [sector] + disk[1..] == OneFree(sector).disk;
    assert OneFree(sector).disk == vol.Put(disk, 2, [sector]);
    vol.PutSpares(disk, 2, [sector]);
    vol.PutThenAt(disk, 2, [sector], 2);
  }

  lemma SmallPlaced(sector: Sector)
    ensures TwoFree(Load).Valid() && WriteStep(TwoFree(Load), OneFree(sector), [sector], 1, NEW_CHAIN, 2)
  {
    var s, t := TwoFree(Load), OneFree(sector);
    SmallPlan(Load);
    SmallSpan(Load);
    var c := s.Charge(1);
    SameStart(s, c, NEW_CHAIN);
    var u := t.(info := FsInfo(1, 3), storedFat := s.fat);
    SmallTable(sector);
    SmallSectors(sector);
    assert [2, 3][..1] == [2] && [2, 3][..1][0] == 2;
    assert c.Head(NEW_CHAIN) == 2 && c.Kept(NEW_CHAIN) == [] && [] + [2] == [2];
    assert Placed(c, u, [sector], 1, NEW_CHAIN);
    assert t == u.GiveBack(0);
  }

  /** A mounted volume and a write of one cluster after which the count is wrong. */
  lemma LoadLosesCount(sector: Sector)
    ensures var s, t := TwoFree(Load), OneFree(sector);
      && s.Valid() && s.Balanced() && s.info == s.storedInfo
      && WriteStep(s, t, [sector], 1, NEW_CHAIN, 2)
      && t.Valid() && !t.Balanced()
  {
    var s, t := TwoFree(Load), OneFree(sector);
    TwoFreeIsBalanced(Load);
    SmallPlan(Load);
    SmallPlaced(sector);
    LoadKeepsCount(s, Write([sector], 1, NEW_CHAIN, 2), t);
  }

  // ----- From the loops to the operations -----

  lemma WalkStep(f: Fat, start: int, p: Path, i: nat)
    requires Trail(f, start, p) && i < |p|
    ensures Next(f, p[i]) == if i + 1 < |p| then p[i + 1] else End(f, start, p)
  {
  }

  /** A search after m clusters of a new chain have been linked finds the next of the plan. */
  lemma FilledThenFree(f0: Fat, f1: Fat, lo: nat, n: int, plan: Path, m: nat, done: set<int>, from: int, found: int)
    requires n <= |f0| == |f1| && 0 < m <= |plan| && InData(n, plan) && Parted(plan, m, done)
    requires forall i {:trigger f0[plan[i]]} | 0 <= i < |plan| :: f0[plan[i]] == 0
    requires ListsFree(f0[plan[0] := END_MARK], lo, n, plan[1..])
    requires forall c {:trigger f1[c]} | 0 <= c < |f0| && c !in done :: f1[c] == f0[c]
    requires forall i {:trigger f1[plan[i]]} | 0 <= i < m :: f1[plan[i]] != 0
    requires from == (if m == 1 then lo else plan[m - 1]) && from <= found <= n
    requires forall c | from <= c < found :: f1[c] != 0
    requires found < n ==> f1[found] == 0
    ensures found == if m < |plan| then plan[m] else n
  {
    var rest := plan[1..];
    assert m > 1 ==> rest[m - 2] in rest && rest[m - 2] == plan[m - 1];
    if m < |plan| {
      assert rest[m - 1] in rest && rest[m - 1] == plan[m] && f1[plan[m]] == f0[plan[m]];
      assert m > 1 ==> rest[m - 2] < rest[m - 1];
      assert found <= plan[m];
    }
    if found < n {
      assert found !in done;
      assert found in rest;
      var k :| 0 <= k < |rest| && rest[k] == found;
      assert plan[k + 1] == found && k >= m - 1;
      if m < |plan| { assert rest[m - 1] == plan[m]; }
    }
  }

  lemma FirstFree(f: Fat, lo: nat, n: int, found: int)
    requires n <= |f| && FreeFrom(f, lo, n) != []
    requires lo <= found <= n && (forall c | lo <= c < found :: f[c] != 0) && (found < n ==> f[found] == 0)
    ensures found == FreeFrom(f, lo, n)[0]
  {
    FreeFromIsComplete(f, lo, n);
    var plan := FreeFrom(f, lo, n);
    assert plan[0] in plan;
    assert found in plan;
  }

  /** What an overwrite leaves of the old chain is still a walk, from the entry that
      the last written cluster had. */
  lemma OrphansWalk(vol: Volume, f0: Fat, f1: Fat, disk0: seq<Sector>, disk: seq<Sector>, buffer: seq<Sector>,
                    plan: Path, num: nat, done: set<int>)
    requires vol.Filled(f0, f1, disk0, disk, buffer, plan, num, done) && 0 < num
    requires 2 <= vol.totalClusters <= BAD_CLUSTER && Chain(f0, vol.totalClusters, plan)
    requires num < |plan| ==> f0[plan[num - 1]] == plan[num]
    ensures Walk(f1, vol.totalClusters, f0[plan[num - 1]], plan[num..])
  {
    var n, rest := vol.totalClusters, plan[num..];
    ChainIsUsed(f0, n, plan, num - 1);
    if num < |plan| {
      ChainTail(f0, n, plan, num);
      forall i | 0 <= i < |rest| ensures f1[rest[i]] == f0[rest[i]] {
        assert rest[i] == plan[num + i] && plan[num + i] !in done;
      }
      ChainUnaffected(f0, f1, n, rest);
    }
  }

  lemma FreedAfterRelink(f0: Fat, f1: Fat, f2: Fat, plan: Path, num: nat, old_: Path)
    requires 0 < num <= |plan| && Distinct(plan) && InData(|f0|, plan)
    requires Relinked(f0, f1, plan[..num], [])
    requires old_ == [] || old_ == plan
    requires Freed(f1, f2, if old_ == [] then [] else plan[num..])
    ensures Relinked(f0, f2, plan[..num], old_)
  {
    assert old_ == plan ==> plan == plan[..num] + plan[num..];
  }

  /** What both loops leave of the table and the data sectors. */
  lemma FilledAndFreed(vol: Volume, f0: Fat, f1: Fat, f2: Fat, disk0: seq<Sector>, disk: seq<Sector>,
                       buffer: seq<Sector>, plan: Path, num: nat, done: set<int>, old_: Path)
    requires vol.Filled(f0, f1, disk0, disk, buffer, plan, num, done) && 0 < num && Distinct(plan)
    requires old_ == [] || old_ == plan
    requires Freed(f1, f2, if old_ == [] then [] else plan[num..])
    ensures Relinked(f0, f2, plan[..num], old_)
    ensures vol.Spares(disk0, disk, plan[..num]) && vol.Stores(disk, buffer, plan[..num])
  {
    vol.FilledIsRelinked(f0, f1, disk0, disk, buffer, plan, num, done);
    vol.FilledSpares(f0, f1, disk0, disk, buffer, plan, num, done);
    FreedAfterRelink(f0, f1, f2, plan, num, old_);
  }
}
