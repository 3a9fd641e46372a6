/** The cluster-chain engine of the FAT32 driver: one mounted partition, with its
    table, its FSInfo counters and the data sectors of its device. */
module FatEngine {
  import opened Machine
  import opened FatTable
  import opened FatVolume
  import opened FatSpec
  import opened FatLaws

  /** The signatures of a parameter block and of FSInfo. */
  const BPB_MAGIC := 0xAA55
  const FSINFO_SIGNATURES: seq<u32> := [0x4161_5252, 0x6141_7272, 0xAA55_0000]

  class FatPartition {
    const bpb: Bpb
    const firstSector: u32
    const firstDataSector: u32
    const totalClusters: u32
    const transfer: InfoTransfer

    // the table and FSInfo in memory
    const fat: array<u32>
    var freeClusterCount: u32
    var clusterSearchStart: u32

    // the device: its sectors, and the values its FAT and FSInfo sectors hold
    var disk: seq<Sector>
    var storedFat: Fat
    var storedInfo: FsInfo

    // the chains of the table, keyed by head cluster
    ghost var chains: map<int, Path>

    // the calls so far, and the states they led through
    ghost var trace: seq<State>
    ghost var calls: seq<Call>

    function Vol(): Volume {
      Volume(firstDataSector, bpb.sectorsPerCluster, totalClusters)
    }

    /** The partition as a value, which the contracts below speak about. */
    ghost function Now(): State
      reads this, fat
    {
      State(Vol(), transfer, fat[..], FsInfo(freeClusterCount, clusterSearchStart), disk, storedFat, storedInfo, chains)
    }

    /** The part of Now().Valid() that does not concern the table's entries. */
    ghost predicate Geometry()
      reads this
    {
      && Vol().Fits(disk)
      && totalClusters <= BAD_CLUSTER
      && totalClusters <= fat.Length
      && (clusterSearchStart <= totalClusters || clusterSearchStart == UNKNOWN)
    }

    /** The partition has the geometry of its parameter block, and was first as it was mounted. */
    ghost predicate FromMount()
      reads this
    {
      && 0 < bpb.sectorsPerCluster && Vol() == MountedVolume(bpb, firstSector)
      && trace != [] && trace[0].storedFat == trace[0].fat
    }

    /** The calls so far are a run that led to the partition as it is. */
    ghost predicate Recorded()
      reads this, fat
    {
      FromMount() && Run(trace, calls) && trace[|calls|] == Now() && Now().Valid()
    }

    /** The record goes on with a call that led to the partition as it is. */
    ghost method Record(s: State, call: Call)
      requires FromMount() && Run(trace, calls) && trace[|calls|] == s && s.Valid() && Step(s, call, Now())
      modifies this`trace, this`calls
      ensures Recorded() && trace == old(trace) + [Now()] && calls == old(calls) + [call]
    {
      RunGoesOn(trace, calls, call, Now());
      StepKeepsValid(s, call, Now());
      trace, calls := trace + [Now()], calls + [call];
    }

    /** Whatever was called since the partition was mounted, its files are those that the calls
        stored and did not drop. */
    lemma FilesAreReplayed()
      requires Recorded()
      ensures trace[0].Valid() && Now().Files() == Replay(trace[0].Files(), Log(trace, calls, |calls|))
    {
      RunIsReplay(trace, calls, |calls|);
    }

    /** So every head holds what was last stored there, and no other head is live. */
    lemma LastStoredIsHeld(h: int)
      requires Recorded()
      ensures trace[0].Valid() && FilesTell(trace[0].Files(), Log(trace, calls, |calls|), Now().Files(), h)
    {
      FilesAreReplayed();
      LastWriteWins(trace[0].Files(), Log(trace, calls, |calls|), h);
    }

    /** Mounting the device again gives the files as they are after a finished call, and as they
        were after the last finished one otherwise. The stored table decides its chains. */
    lemma RemountGivesFiles(transfer: InfoTransfer) returns (kept: map<int, Path>)
      requires Recorded()
      ensures var j, m := LastFinished(calls, |calls|),
                          Mounted(MountedVolume(bpb, firstSector), disk, storedFat, storedInfo, transfer, kept);
        && trace[j].Valid() && m.Valid() && m.Files() == trace[j].Files()
        && (calls != [] && Finished(calls[|calls| - 1]) ==> m.Files() == Now().Files())
      ensures forall other | Sound(storedFat, totalClusters, other) :: other == kept
    {
      kept := RemountFindsFiles(trace, calls, |calls|, transfer);
      RunKeepsValid(trace, calls, |calls|);
    }

    method ReadFat()
      requires |storedFat| == fat.Length
      modifies fat, this`freeClusterCount, this`clusterSearchStart
      ensures fat[..] == storedFat
      ensures FsInfo(freeClusterCount, clusterSearchStart) == storedInfo
    {
      forall i | 0 <= i < fat.Length { fat[i] := storedFat[i]; }
      freeClusterCount, clusterSearchStart := storedInfo.freeClusterCount, storedInfo.clusterSearchStart;
    }

    /** Mounts a partition whose table has the given chains. */
    constructor Mount(bpb: Bpb, firstSector: u32, disk: seq<Sector>, storedFat: Fat, storedInfo: FsInfo,
                      transfer: InfoTransfer, ghost chains: map<int, Path>)
      requires 0 < bpb.bytesPerSector && 0 < bpb.sectorsPerCluster
      requires Mounted(MountedVolume(bpb, firstSector), disk, storedFat, storedInfo, transfer, chains).Valid()
      ensures Now() == Mounted(MountedVolume(bpb, firstSector), disk, storedFat, storedInfo, transfer, chains)
      ensures fresh(fat) && this.bpb == bpb && this.firstSector == firstSector && Recorded() && calls == []
    {
      this.bpb, this.firstSector, this.transfer := bpb, firstSector, transfer;
      firstDataSector := MountedVolume(bpb, firstSector).firstDataSector;
      totalClusters := MountedVolume(bpb, firstSector).totalClusters;
      this.disk, this.storedFat, this.storedInfo, this.chains := disk, storedFat, storedInfo, chains;
      fat := new u32[|storedFat|](i requires 0 <= i < |storedFat| => storedFat[i]);
      freeClusterCount, clusterSearchStart := 0, 0;
      new;
      ReadFat();
      trace, calls := [Now()], [];
    }

    function ClusterSize(): int {
      bpb.sectorsPerCluster * bpb.bytesPerSector
    }

    /** How many clusters a write of size bytes takes. */
    ghost function ClusterCount(size: nat): nat
      requires 0 < ClusterSize()
    {
      Pieces(size, ClusterSize())
    }

    /** The count as the code computes it. */
    method CountClusters(size: nat) returns (count: nat)
      requires 0 < ClusterSize() && size + ClusterSize() <= TWO_64
      ensures count == ClusterCount(size)
      ensures size <= count * ClusterSize() && (0 < size ==> (count - 1) * ClusterSize() < size)
    {
      PiecesHold(size, ClusterSize());
      PiecesIsQuotient(size, ClusterSize());
      count := (size + ClusterSize() - 1) / ClusterSize();
    }

    // ----- The device -----

    method DiskRead(lba: int, count: int) returns (data: seq<Sector>)
      requires 0 <= lba && 0 <= count && lba + count <= |disk|
      ensures data == disk[lba..lba + count]
    {
      data := disk[lba..lba + count];
    }

    method DiskWrite(lba: int, data: seq<Sector>)
      requires 0 <= lba && lba + |data| <= |disk|
      modifies this`disk
      ensures disk == old(disk[..lba]) + data + old(disk[lba + |data|..])
    {
      disk := disk[..lba] + data + disk[lba + |data|..];
    }

    method WriteFat()
      modifies this`storedFat, this`storedInfo, this`freeClusterCount, this`clusterSearchStart
      ensures Now() == old(Now()).Flush()
      ensures storedFat == fat[..] && storedInfo == FsInfo(freeClusterCount, clusterSearchStart)
      ensures storedInfo == if transfer.Store? then FsInfo(old(freeClusterCount), old(clusterSearchStart))
                            else old(storedInfo)
    {
      storedFat := fat[..];
      if transfer.Store? {
        storedInfo := FsInfo(freeClusterCount, clusterSearchStart);
      } else {
        freeClusterCount, clusterSearchStart := storedInfo.freeClusterCount, storedInfo.clusterSearchStart;
      }
    }

    // ----- Walking -----

    method GetNextCluster(cluster: u32) returns (next: u32)
      requires cluster < fat.Length
      ensures next == Next(fat[..], cluster) == fat[cluster] % 0x1000_0000
    {
      next := fat[cluster] % 0x1000_0000;
    }

    method ReadCluster(cluster: u32) returns (data: seq<Sector>)
      requires Vol().OnDisk(disk, cluster)
      ensures data == Vol().RawAt(disk, cluster)
    {
      var lba := (firstDataSector + (cluster - 2) * bpb.sectorsPerCluster) % TWO_32;
      data := DiskRead(lba, bpb.sectorsPerCluster);
    }

    /** Reads the clusters that the links from start lead through, which the caller need not
        know. They may begin with cluster 0, as for an empty file. */
    method ReadClusterChain(start: u32, ghost p: Path) returns (r: int, buffer: seq<Sector>)
      requires Trail(fat[..], start, p) && forall i | 0 <= i < |p| :: Vol().OnDisk(disk, p[i])
      ensures buffer == Vol().RawData(disk, p)
      ensures r == -1 <==> End(fat[..], start, p) == 0x0FFF_FFF7
      ensures r == 0 <==> End(fat[..], start, p) >= 0x0FFF_FFF8
    {
      ghost var f, i := fat[..], 0;
      var cluster := start;
      buffer := [];
      while cluster < END_OF_CHAIN
        invariant 0 <= i <= |p|
        invariant cluster == if i < |p| then p[i] else End(f, start, p)
        invariant buffer == Vol().RawData(disk, p[..i])
        decreases |p| - i, if cluster < END_OF_CHAIN then 1 else 0
      {
        if cluster == BAD_CLUSTER {
          assert i == |p| && p[..i] == p;
          return -1, buffer;
        }
        assert Vol().OnDisk(disk, p[i]) && p[..i + 1][..i] == p[..i];
        var data := ReadCluster(cluster);
        buffer := buffer + data;
        WalkStep(f, start, p, i);
        cluster := GetNextCluster(cluster);
        i := i + 1;
      }
      assert i == |p| && p[..i] == p;
      r := 0;
    }

    /** Reading at a live head gives the file stored there, whole clusters of it: what a call
        stored at the head, if no later call stored or dropped anything there. */
    method ReadFile(start: u32) returns (r: int, buffer: seq<Sector>)
      requires Recorded() && start in chains
      ensures r == 0 && buffer == Now().Files()[start] && |buffer| == Vol().Span(|chains[start]|)
      ensures forall i, data | LastStored(Log(trace, calls, |calls|), start, i, data) :: buffer == data
    {
      assert Chain(fat[..], totalClusters, chains[start]) && chains[start][0] == start;
      WalkIsTrail(fat[..], totalClusters, start, chains[start]);
      Vol().RawDataIsData(disk, chains[start]);
      r, buffer := ReadClusterChain(start, chains[start]);
      Vol().DataLength(disk, chains[start]);
      LastStoredIsHeld(start);
    }

    /** The size of a chain in bytes, in 32-bit arithmetic; one cluster for cluster 0. */
    method GetFileSize(start: u32, ghost p: Path) returns (size: u32)
      requires Trail(fat[..], start, p) && End(fat[..], start, p) >= END_OF_CHAIN
      ensures size == |p| * ClusterSize() % TWO_32
    {
      ghost var f, i := fat[..], 0;
      var cluster := start;
      size := 0;
      while cluster < END_OF_CHAIN
        invariant 0 <= i <= |p|
        invariant cluster == if i < |p| then p[i] else End(f, start, p)
        invariant size == i * ClusterSize() % TWO_32
        decreases |p| - i
      {
        WalkStep(f, start, p, i);
        AddMod(i, ClusterSize(), TWO_32);
        size := (size + ClusterSize()) % TWO_32;
        cluster := GetNextCluster(cluster);
        i := i + 1;
      }
    }

    /** The root directory's size as mounting sums it up: the loop body comes first. */
    method RootDirectorySize(rootCluster: u32, ghost p: Path) returns (size: u32)
      requires Geometry() && Chain(fat[..], totalClusters, p) && p[0] == rootCluster
      ensures size == |p| * ClusterSize() % TWO_32
    {
      ghost var f, i := fat[..], 1;
      WalkIsTrail(f, totalClusters, rootCluster, p);
      AddMod(0, ClusterSize(), TWO_32);
      size := ClusterSize() % TWO_32;
      WalkStep(f, rootCluster, p, 0);
      var cluster := GetNextCluster(rootCluster);
      while cluster < END_OF_CHAIN
        invariant 1 <= i <= |p|
        invariant cluster == if i < |p| then p[i] else End(f, p[0], p)
        invariant size == i * ClusterSize() % TWO_32
        decreases |p| - i
      {
        WalkStep(f, rootCluster, p, i);
        AddMod(i, ClusterSize(), TWO_32);
        size := (size + ClusterSize()) % TWO_32;
        cluster := GetNextCluster(cluster);
        i := i + 1;
      }
    }

    /** Mounts a partition, if its signatures are right, and sums up the size of its root
        directory. The table has the given chains, which it alone decides. */
    static method MountPart(magic: int, bpb: Bpb, firstSector: u32, disk: seq<Sector>, storedFat: Fat,
                            storedInfo: FsInfo, signatures: seq<u32>, rootCluster: u32, transfer: InfoTransfer,
                            ghost chains: map<int, Path>)
      returns (partition: FatPartition?, rootSize: u32)
      requires magic == BPB_MAGIC && signatures == FSINFO_SIGNATURES ==>
        && 0 < bpb.bytesPerSector && 0 < bpb.sectorsPerCluster && rootCluster in chains
        && Mounted(MountedVolume(bpb, firstSector), disk, storedFat, storedInfo, transfer, chains).Valid()
      ensures partition == null <==> magic != 0xAA55 || signatures != [0x4161_5252, 0x6141_7272, 0xAA55_0000]
      ensures partition != null ==>
        && fresh(partition) && fresh(partition.fat) && partition.Recorded()
        && partition.Now() == Mounted(MountedVolume(bpb, firstSector), disk, storedFat, storedInfo, transfer, chains)
        && rootSize == |chains[rootCluster]| * partition.ClusterSize() % TWO_32
    {
      if magic != BPB_MAGIC || signatures != FSINFO_SIGNATURES {
        return null, 0;
      }
      partition := new FatPartition.Mount(bpb, firstSector, disk, storedFat, storedInfo, transfer, chains);
      assert Chain(partition.fat[..], partition.totalClusters, chains[rootCluster]);
      rootSize := partition.RootDirectorySize(rootCluster, chains[rootCluster]);
    }

    // ----- Finding free clusters -----

    /** The first free cluster at or after the search start, or totalClusters. */
    method FindFreeCluster() returns (cur: int)
      requires Geometry()
      modifies this`clusterSearchStart
      ensures clusterSearchStart == cur && cur <= totalClusters && Geometry()
      ensures cur < totalClusters ==> fat[cur] == 0
      ensures var lo := if old(clusterSearchStart) == 0xFFFF_FFFF then 2 else old(clusterSearchStart);
        lo <= cur && forall c | lo <= c < cur :: fat[c] != 0
    {
      cur := clusterSearchStart;
      if cur == UNKNOWN {
        cur := 2;
      }
      ghost var lo := cur;
      while cur < totalClusters
        invariant lo <= cur <= totalClusters
        invariant forall c | lo <= c < cur :: fat[c] != 0
      {
        if fat[cur] == 0 { break; }
        cur := cur + 1;
      }
      clusterSearchStart := cur;
    }

    // ----- Writing -----

    /** Links the next cluster of the plan to the one before it, fills it, and makes it
        the end of the chain; returns the raw entry it had. */
    method LinkCluster(cur: u32, prev: u32, buffer: seq<Sector>, pos: nat, ghost f0: Fat, ghost disk0: seq<Sector>,
                       ghost plan: Path, ghost num: nat, ghost done: set<int>)
      returns (next: u32)
      requires Geometry() && Vol().Filled(f0, fat[..], disk0, disk, buffer, plan, num, done)
      requires num < |plan| && cur == plan[num] && prev == (if num == 0 then 0 else plan[num - 1]) && Distinct(plan)
      requires pos == Vol().Span(num) && pos + bpb.sectorsPerCluster <= |buffer|
      modifies this`disk, fat
      ensures Geometry()
      ensures next == f0[plan[num]]
      ensures Vol().Filled(f0, fat[..], disk0, disk, buffer, plan, num + 1, done + {cur})
      ensures fat[..] == Turned(old(fat[..]), cur, prev)
      ensures fat[cur] == 0xFFFF_FFFF && (prev != 0 && prev != cur ==> fat[prev] == cur)
    {
      ghost var f := fat[..];
      if prev != 0 {
        fat[prev] := cur;
      }
      var lba := (firstDataSector + (cur - 2) * bpb.sectorsPerCluster) % TWO_32;
      Vol().LbaComputed(disk, cur);
      DiskWrite(lba, buffer[pos..pos + bpb.sectorsPerCluster]);
      assert disk == Vol().Put(old(disk), cur, Vol().Chunk(buffer, num));
      next := fat[cur];
      assert next == f[cur];
      fat[cur] := END_MARK;
      Vol().FillOneMore(f0, f, fat[..], disk0, old(disk), disk, buffer, plan, num, done);
    }

    /** Where the writing loop goes after num clusters: to a free cluster when the last
        one was free, which may not exist, and along the old chain otherwise. */
    method Advance(next: u32, ghost f0: Fat, ghost disk0: seq<Sector>, ghost buffer: seq<Sector>, ghost lo: nat,
                   ghost plan: Path, ghost num: nat, ghost done: set<int>, ghost isNew: bool, ghost count: int)
      returns (full: bool, cur: u32)
      requires Geometry() && totalClusters <= |f0| && Vol().IsPlan(f0, lo, plan, isNew, count)
      requires Vol().Filled(f0, fat[..], disk0, disk, buffer, plan, num, done)
      requires 0 < num <= count && next == f0[plan[num - 1]]
      requires isNew ==> SearchFrom(clusterSearchStart) == if num == 1 then lo else plan[num - 1]
      modifies this`clusterSearchStart
      ensures Geometry() && fat[..] == old(fat[..])
      ensures full <==> isNew && num == |plan|
      ensures num < |plan| ==> cur == plan[num]
      ensures full ==> cur == totalClusters
      ensures clusterSearchStart == if isNew then cur else old(clusterSearchStart)
    {
      assert isNew <==> next == 0;
      full, cur := false, next;
      if next == 0 {
        ghost var from := SearchFrom(clusterSearchStart);
        cur := FindFreeCluster();
        FilledThenFree(f0, fat[..], lo, totalClusters, plan, num, done, from, cur);
        full := cur == totalClusters;
      }
    }

    /** One turn of the writing loop. */
    method FillNext(cur: u32, prev: u32, buffer: seq<Sector>, pos: nat, ghost f0: Fat, ghost disk0: seq<Sector>,
                    ghost lo: nat, ghost plan: Path, ghost num: nat, ghost done: set<int>, ghost isNew: bool,
                    ghost count: int)
      returns (next: u32, full: bool, cur': u32, prev': u32, pos': nat)
      requires Geometry() && totalClusters <= |f0| && Vol().IsPlan(f0, lo, plan, isNew, count) && Distinct(plan)
      requires Vol().Filled(f0, fat[..], disk0, disk, buffer, plan, num, done)
      requires num < count && num < |plan| && cur == plan[num] && prev == (if num == 0 then 0 else plan[num - 1])
      requires pos == Vol().Span(num) && Vol().Span(count) <= |buffer|
      requires isNew ==> SearchFrom(clusterSearchStart) == if num == 0 then lo else cur
      modifies this`disk, this`clusterSearchStart, fat
      ensures Geometry() && Vol().Filled(f0, fat[..], disk0, disk, buffer, plan, num + 1, done + {cur})
      ensures next == f0[plan[num]] && prev' == cur && pos' == Vol().Span(num + 1)
      ensures full <==> isNew && num + 1 == |plan|
      ensures num + 1 < |plan| ==> cur' == plan[num + 1]
      ensures full ==> cur' == totalClusters
      ensures clusterSearchStart == if isNew then cur' else old(clusterSearchStart)
    {
      Vol().SpanGrows(num, count);
      next := LinkCluster(cur, prev, buffer, pos, f0, disk0, plan, num, done);
      prev', pos' := cur, pos + bpb.sectorsPerCluster;
      full, cur' := Advance(next, f0, disk0, buffer, lo, plan, num + 1, done + {cur}, isNew, count);
    }

    /** The writing loop: fills clusters along the plan and links each to the one
        before. It stops early when it needs a further free cluster and there is none,
        which it also checks after the last cluster. */
    method FillChain(buffer: seq<Sector>, count: int, first: u32, ghost lo: nat, ghost plan: Path, ghost isNew: bool)
      returns (full: bool, num: nat, next: u32, ghost done: set<int>)
      requires Geometry() && 0 < count && Vol().Span(count) <= |buffer|
      requires Vol().IsPlan(fat[..], lo, plan, isNew, count) && first == plan[0] && Distinct(plan)
      requires isNew ==> SearchFrom(clusterSearchStart) == lo
      modifies this`disk, this`clusterSearchStart, fat
      ensures Geometry()
      ensures full <==> isNew && |plan| <= count
      ensures 0 < num <= |plan| && num == if full then |plan| else count
      ensures Vol().Filled(old(fat[..]), fat[..], old(disk), disk, buffer, plan, num, done)
      ensures next == old(fat[plan[num - 1]])
      ensures clusterSearchStart ==
        if !isNew then old(clusterSearchStart) else if full then totalClusters else plan[num]
    {
      ghost var f0, disk0, start0 := fat[..], disk, clusterSearchStart;
      var cur, prev: u32 := first, 0;
      var pos := 0;
      num, next, full, done := 0, 0, false, {};
      while num < count
        invariant Geometry() && num <= count && num <= |plan| && pos == Vol().Span(num)
        invariant num < count || isNew ==> num < |plan|
        invariant num < |plan| ==> cur == plan[num]
        invariant prev == if num == 0 then 0 else plan[num - 1]
        invariant num > 0 ==> next == f0[plan[num - 1]]
        invariant clusterSearchStart == if isNew && num > 0 then cur else start0
        invariant isNew ==> SearchFrom(clusterSearchStart) == if num == 0 then lo else cur
        invariant Vol().Filled(f0, fat[..], disk0, disk, buffer, plan, num, done)
      {
        ghost var done0 := done;
        done := done + {cur};
        next, full, cur, prev, pos := FillNext(cur, prev, buffer, pos, f0, disk0, lo, plan, num, done0, isNew, count);
        num := num + 1;
        if full { return; }
      }
    }

    /** The loop that frees what a shorter overwrite leaves of the old chain. The first
        orphan is a raw entry; a free one means that there is no old chain. */
    method FreeOrphans(orphan0: u32, ghost p: Path) returns (freed: nat)
      requires Geometry()
      requires (orphan0 == 0 && p == []) || Walk(fat[..], totalClusters, orphan0, p)
      modifies fat
      ensures Freed(old(fat[..]), fat[..], p) && freed == |p|
    {
      ghost var f0 := fat[..];
      var orphan := orphan0;
      freed := 0;
      if orphan0 != 0 { WalkIsTrail(f0, totalClusters, orphan0, p); }
      while orphan != 0 && orphan < END_OF_CHAIN
        invariant 0 <= freed <= |p|
        invariant orphan == if freed < |p| then p[freed] else End(f0, orphan0, p)
        invariant Freed(f0, fat[..], p[..freed])
        decreases |p| - freed, if orphan < END_OF_CHAIN then 1 else 0
      {
        if orphan == BAD_CLUSTER { break; }
        WalkStep(f0, orphan0, p, freed);
        var next := GetNextCluster(orphan);
        fat[orphan] := 0;
        orphan := next;
        freed := freed + 1;
      }
      assert p[..freed] == p;
    }

    /** The writing loop, and the freeing loop behind it unless the table was full. */
    method RunPlan(buffer: seq<Sector>, count: int, first: u32, ghost lo: nat, ghost plan: Path, ghost isNew: bool)
      returns (full: bool, freed: nat, ghost num: nat)
      requires Geometry() && 0 < count && Vol().Span(count) <= |buffer|
      requires Vol().IsPlan(fat[..], lo, plan, isNew, count) && first == plan[0] && Distinct(plan)
      requires isNew ==> SearchFrom(clusterSearchStart) == lo
      requires !isNew ==> Chain(fat[..], totalClusters, plan)
      modifies this`disk, this`clusterSearchStart, fat
      ensures full <==> isNew && |plan| <= count
      ensures 0 < num <= |plan| && num == if full then |plan| else count
      ensures Vol().Span(num) <= |buffer|
      ensures !full ==> freed == if isNew then 0 else |plan| - count
      ensures Relinked(old(fat[..]), fat[..], plan[..num], if isNew then [] else plan)
      ensures Vol().Spares(old(disk), disk, plan[..num]) && Vol().Stores(disk, buffer, plan[..num])
      ensures clusterSearchStart ==
        if !isNew then old(clusterSearchStart) else if full then totalClusters else plan[num]
    {
      ghost var f0, disk0 := fat[..], disk;
      var filled, next;
      ghost var done;
      full, filled, next, done := FillChain(buffer, count, first, lo, plan, isNew);
      num := filled;
      ghost var f1 := fat[..];
      Vol().SpanUpTo(num, count);
      freed := 0;
      if !full {
        if !isNew {
          OrphansWalk(Vol(), f0, f1, disk0, disk, buffer, plan, num, done);
        }
        freed := FreeOrphans(next, if isNew then [] else plan[num..]);
      }
      assert Freed(f1, fat[..], if isNew then [] else plan[num..]);
      FilledAndFreed(Vol(), f0, f1, fat[..], disk0, disk, buffer, plan, num, done, if isNew then [] else plan);
    }

    /** The caller's cluster, or the first free one. */
    method FirstCluster(start: int) returns (first: u32)
      requires Now().Valid() && Now().Plan(start) != [] && Now().Plan(start)[0] >= 0
      requires start != NEW_CHAIN ==> Now().Plan(start)[0] == start && start < TWO_32
      modifies this`clusterSearchStart
      ensures Geometry() && first == old(Now().Plan(start))[0]
      ensures SearchFrom(clusterSearchStart) == old(SearchedFrom(Now(), start))
      ensures start != NEW_CHAIN ==> clusterSearchStart == old(clusterSearchStart)
    {
      ghost var s := Now();
      if start != NEW_CHAIN {
        first := start;
      } else {
        first := FindFreeCluster();
        FirstFree(s.fat, SearchFrom(s.info.clusterSearchStart), totalClusters, first);
      }
    }

    /** The part of a write that changes the table and the data sectors. */
    method PlaceChain(buffer: seq<Sector>, count: int, start: int) returns (full: bool, first: u32, freed: nat)
      requires Now().Valid() && 0 < count && Vol().Span(count) <= |buffer| && Now().CanWrite(count, start)
      modifies this`disk, this`clusterSearchStart, this`chains, fat
      ensures Placed(old(Now()), Now(), buffer, count, start)
      ensures full == Full(old(Now()), count, start) && first == old(Now().Plan(start))[0]
      ensures !full ==> freed == Orphans(old(Now()), count, start)
    {
      ghost var s, isNew := Now(), Now().StartsNew(start);
      ghost var plan := s.Plan(start);
      PlanIsGood(s, count, start);
      first := FirstCluster(start);
      ghost var num;
      full, freed, num := RunPlan(buffer, count, first, SearchedFrom(s, start), plan, isNew);
      assert num == Filling(s, count, start);
      chains := chains[s.Head(start) := s.Kept(start) + plan[..num]];
    }

    /** Adds the freed clusters to FSInfo's count and flushes. */
    method GiveBack(freed: nat)
      modifies this`freeClusterCount, this`clusterSearchStart, this`storedFat, this`storedInfo
      ensures Now() == old(Now()).GiveBack(freed)
    {
      freeClusterCount := (freeClusterCount + freed) % TWO_32;
      WriteFat();
    }

    /** A write for which FSInfo counts enough free clusters. */
    method WriteCounted(buffer: seq<Sector>, count: nat, start: int) returns (r: int)
      requires Now().Valid() && 0 < count <= freeClusterCount
      requires Vol().Span(count) <= |buffer| && Now().CanWrite(count, start)
      modifies this`disk, this`freeClusterCount, this`clusterSearchStart, this`chains, this`storedFat
      modifies this`storedInfo, fat
      ensures WriteStep(old(Now()), Now(), buffer, count, start, r)
    {
      ghost var s := Now();
      freeClusterCount := freeClusterCount - count;
      assert Now() == s.Charge(count);
      ChargeKeepsValid(s, count, start);
      SameStart(s, s.Charge(count), start);
      var full, first, freed := PlaceChain(buffer, count, start);
      if full {
        return -2;
      }
      ghost var u := Now();
      SameOrphans(s, s.Charge(count), count, start);
      GiveBack(freed);
      assert Now() == u.GiveBack(freed);
      r := first;
    }

    /** A write there begins a chain: at a free cluster of its own choice or the caller's. */
    ghost predicate IsFreeStart(start: int)
      requires Geometry()
      reads this, fat
    {
      start == -1 || (2 <= start < totalClusters && fat[start] == 0)
    }

    /** Writes size bytes to a new chain, or from start on over the chain that start is on. The
        result is the first cluster written, or tells why the write was not finished. */
    method WriteClusterChain(buffer: seq<Sector>, size: nat, start: int) returns (r: int)
      requires Recorded() && 0 < ClusterSize() && 0 < size && size + ClusterSize() <= TWO_64
      requires Vol().Span(ClusterCount(size)) <= |buffer|
      requires ClusterCount(size) <= freeClusterCount ==> Now().CanWrite(ClusterCount(size), start)
      modifies this, fat
      ensures WriteStep(old(Now()), Now(), buffer, ClusterCount(size), start, r)
      ensures Recorded() && calls == old(calls) + [Write(buffer, ClusterCount(size), start, r)]
      ensures trace == old(trace) + [Now()]
      ensures r == -1 <==> old(freeClusterCount) < ClusterCount(size)
      ensures r == -1 ==> Now() == old(Now())
      ensures r == -2 <==>
        && ClusterCount(size) <= old(freeClusterCount) && old(IsFreeStart(start))
        && |Takeable(old(Now()), start)| <= ClusterCount(size)
      ensures r >= 0 && old(IsFreeStart(start)) ==>
        var sectors := ClusterCount(size) * bpb.sectorsPerCluster;
        && r !in old(Now().Files()) && (start == -1 || r == start) && 0 <= sectors <= |buffer|
        && Now().Files() == old(Now().Files())[r := buffer[..sectors]]
      ensures r >= 0 ==> forall h, k | h in old(chains) && 0 <= k < |old(chains)[h]| && old(chains)[h][k] == start ::
        var front, sectors := k * bpb.sectorsPerCluster, ClusterCount(size) * bpb.sectorsPerCluster;
        && r == start && 0 <= front <= |old(Now().Files())[h]| && 0 <= sectors <= |buffer|
        && Now().Files() == old(Now().Files())[h := old(Now().Files())[h][..front] + buffer[..sectors]]
      ensures if r >= 0 then storedFat == fat[..] else storedFat == old(storedFat)
    {
      ghost var s := Now();
      var clusterCount := CountClusters(size);
      if clusterCount > freeClusterCount {
        r := -1;
      } else {
        r := WriteCounted(buffer, clusterCount, start);
      }
      Record(s, Write(buffer, clusterCount, start, r));
      FullWrite(s, Now(), buffer, clusterCount, start, r);
      RefusedWrite(s, Now(), buffer, clusterCount, start, r);
      FinishedIsStored(s, Write(buffer, clusterCount, start, r), Now());
      if r >= 0 && old(IsFreeStart(start)) {
        NewChainWritten(s, Now(), buffer, clusterCount, start, r);
      }
      forall h, k | r >= 0 && h in s.chains && 0 <= k < |s.chains[h]| && s.chains[h][k] == start
        ensures r == start
        ensures var front, sectors := k * bpb.sectorsPerCluster, clusterCount * bpb.sectorsPerCluster;
          && 0 <= front <= |s.Files()[h]| && 0 <= sectors <= |buffer|
          && Now().Files() == s.Files()[h := s.Files()[h][..front] + buffer[..sectors]]
      {
        ChainOverwritten(s, Now(), buffer, clusterCount, h, k, r);
      }
    }

    // ----- Deleting -----

    /** The loop that gives a whole chain back; it gives up at a bad-cluster mark. */
    method FreeChain(start: u32, ghost p: Path) returns (ok: bool, freed: nat)
      requires Trail(fat[..], start, p)
      modifies fat
      ensures Freed(old(fat[..]), fat[..], p) && freed == |p|
      ensures ok <==> End(old(fat[..]), start, p) != BAD_CLUSTER
    {
      ghost var f0 := fat[..];
      freed := 0;
      var cluster := start;
      while cluster < END_OF_CHAIN
        invariant 0 <= freed <= |p|
        invariant cluster == if freed < |p| then p[freed] else End(f0, start, p)
        invariant Freed(f0, fat[..], p[..freed])
        decreases |p| - freed, if cluster < END_OF_CHAIN then 1 else 0
      {
        if cluster == BAD_CLUSTER {
          assert p[..freed] == p;
          return false, freed;
        }
        WalkStep(f0, start, p, freed);
        var next := GetNextCluster(cluster);
        fat[cluster] := 0;
        cluster := next;
        freed := freed + 1;
      }
      assert p[..freed] == p;
      ok := true;
    }

    /** What a deletion may start at: a live head; or cluster 0, if a walk over p from there ends. */
    ghost predicate CanDelete(start: int, p: Path)
      requires Now().Valid()
      reads this, fat
    {
      if start in chains then p == chains[start] else start == 0 && Trail(fat[..], start, p)
    }

    /** The freeing loop of a deletion. */
    method RemoveChain(start: u32, ghost p: Path) returns (ok: bool, freed: nat)
      requires Now().Valid() && CanDelete(start, p)
      modifies this`chains, fat
      ensures Freed(old(fat[..]), fat[..], p) && freed == |p|
      ensures ok <==> End(old(fat[..]), start, p) != BAD_CLUSTER
      ensures start in old(chains) ==> ok && Removed(old(Now()), Now(), start)
      ensures start !in old(chains) ==> Now() == old(Now()).(fat := fat[..])
    {
      ghost var s := Now();
      if start in chains {
        assert Chain(s.fat, totalClusters, p) && p[0] == start;
        WalkIsTrail(s.fat, totalClusters, start, p);
      }
      ok, freed := FreeChain(start, p);
      if start in chains {
        chains := chains - {start};
      }
    }

    /** The end of a deletion: gives back the chain at start and updates FSInfo, unless the loop
        gave up. For an empty file, with the start 0, the code gives back entry 0 and whatever
        that links to, and no valid partition is left. */
    method DeleteChain(start: u32, ghost p: Path)
      requires Recorded() && CanDelete(start, p)
      modifies this, fat
      ensures Freed(old(fat[..]), fat[..], p)
      ensures start in old(chains) ==> DeleteStep(old(Now()), Now(), start)
      ensures start in old(chains) ==>
        && Recorded() && calls == old(calls) + [Delete(start)] && trace == old(trace) + [Now()]
        && Now().Files() == old(Now().Files()) - {start} && storedFat == fat[..]
      ensures start == 0 ==> !Now().Valid()
      ensures start == 0 ==>
        var u := old(Now()).(fat := fat[..]);
        Now() == if End(old(fat[..]), start, p) == BAD_CLUSTER then u else Lowered(u, 0).GiveBack(|p|)
    {
      ghost var s := Now();
      var ok, freed := RemoveChain(start, p);
      ghost var u := Now();
      if start == 0 { FreeingEntryZero(s.fat, u.fat, totalClusters, p, chains); }
      if !ok {
        return;
      }
      if start < clusterSearchStart {
        clusterSearchStart := start;
      }
      assert Now() == Lowered(u, start);
      GiveBack(freed);
      if start in s.chains {
        assert Removed(s, u, start) && Now() == Lowered(u, start).GiveBack(|s.chains[start]|);
        Record(s, Delete(start));
        DeleteEffect(s, Now(), start);
      }
    }
  }
}
