/** The data area of a FAT32 volume: where the clusters lie on the disk, what a chain
    of them holds, and what the writing loop does to them. */
module FatVolume {
  import opened Machine
  import opened FatTable

  type Sector = seq<byte>

  /** The BIOS parameter block fields from which the geometry is computed. */
  datatype Bpb = Bpb(
    bytesPerSector: nat,
    sectorsPerCluster: nat,
    reservedSectors: nat,
    numFats: nat,
    totalSectors: u32,
    fatSize: nat)

  /** The first num clusters of the plan are done, the others are not. */
  ghost predicate Parted(plan: Path, num: nat, done: set<int>) {
    && (forall i | 0 <= i < |plan| :: plan[i] in done <==> i < num)
    && (forall c | c in done :: c in plan)
  }

  lemma PartedStep(plan: Path, num: nat, done: set<int>)
    requires Parted(plan, num, done) && num < |plan| && Distinct(plan)
    ensures Parted(plan, num + 1, done + {plan[num]})
  {
  }

  lemma PartedIsPrefix(plan: Path, num: nat, done: set<int>, c: int)
    requires Parted(plan, num, done) && num <= |plan|
    ensures c in done <==> c in plan[..num]
  {
    if c in done {
      var i :| 0 <= i < |plan| && plan[i] == c;
      assert plan[..num][i] == c;
    }
  }

  datatype Volume = Volume(firstDataSector: int, sectorsPerCluster: int, totalClusters: int) {
    /** The number of sectors of k clusters, a sum so that proofs about it stay linear. */
    ghost function Span(k: int): (sectors: int)
      ensures k <= 0 ==> sectors == 0
    {
      if k <= 0 then 0 else Span(k - 1) + sectorsPerCluster
    }

    lemma {:induction false} SpanIsProduct(k: nat)
      ensures Span(k) == k * sectorsPerCluster
    {
      if k > 0 {
        SpanIsProduct(k - 1);
        assert k * sectorsPerCluster == (k - 1) * sectorsPerCluster + sectorsPerCluster;
      }
    }

    lemma {:induction false} SpanGrows(j: int, k: int)
      requires j < k && 0 < k && 0 <= sectorsPerCluster
      ensures 0 <= Span(j) && Span(j) + sectorsPerCluster <= Span(k)
      decreases k
    {
      if k > 1 && j < k - 1 {
        SpanGrows(j, k - 1);
      } else if 0 < j {
        SpanGrows(j - 1, k - 1);
      }
    }

    ghost predicate Fits(disk: seq<Sector>) {
      && 0 <= firstDataSector
      && 1 <= sectorsPerCluster
      && 2 <= totalClusters
      && firstDataSector + Span(totalClusters - 2) <= |disk| <= 0x1_0000_0000
    }

    ghost function Lba(c: int): int {
      firstDataSector + Span(c - 2)
    }

    lemma LbaBounds(disk: seq<Sector>, c: int)
      requires Fits(disk) && 2 <= c < totalClusters
      ensures firstDataSector <= Lba(c) && Lba(c) + sectorsPerCluster <= |disk|
    {
      SpanGrows(c - 2, totalClusters - 2);
    }

    lemma LbaApart(c: int, d: int)
      requires 2 <= c < d && 0 <= sectorsPerCluster
      ensures Lba(c) + sectorsPerCluster <= Lba(d)
    {
      SpanGrows(c - 2, d - 2);
    }

    /** The sector number the code computes is the cluster's, without 32-bit overflow. */
    lemma LbaComputed(disk: seq<Sector>, c: int)
      requires Fits(disk) && 2 <= c < totalClusters
      ensures (firstDataSector + (c - 2) * sectorsPerCluster) % 0x1_0000_0000 == Lba(c)
      ensures firstDataSector <= Lba(c) && Lba(c) + sectorsPerCluster <= |disk|
    {
      SpanIsProduct(c - 2);
      LbaBounds(disk, c);
    }

    /** The sector number that the code computes for a cluster, data cluster or not. */
    function SectorOf(c: int): int {
      (firstDataSector + (c - 2) * sectorsPerCluster) % TWO_32
    }

    ghost predicate OnDisk(disk: seq<Sector>, c: int) {
      0 <= SectorOf(c) && 0 <= sectorsPerCluster && SectorOf(c) + sectorsPerCluster <= |disk|
    }

    /** What the code reads for a cluster. */
    ghost function RawAt(disk: seq<Sector>, c: int): seq<Sector>
      requires OnDisk(disk, c)
    {
      disk[SectorOf(c)..SectorOf(c) + sectorsPerCluster]
    }

    /** What it reads for the clusters of p. */
    ghost function RawData(disk: seq<Sector>, p: Path): seq<Sector>
      requires forall i | 0 <= i < |p| :: OnDisk(disk, p[i])
    {
      if p == [] then []
      else
        assert OnDisk(disk, p[|p| - 1]);
        RawData(disk, p[..|p| - 1]) + RawAt(disk, p[|p| - 1])
    }

    /** Cluster 0, the start of an empty file, is taken for sectors in front of the data area. */
    lemma LbaOfClusterZero()
      requires 1 <= sectorsPerCluster && 2 * sectorsPerCluster <= firstDataSector < TWO_32
      ensures (firstDataSector + (0 - 2) * sectorsPerCluster) % TWO_32 + 2 * sectorsPerCluster == firstDataSector
    {
    }

    /** The sectors of cluster c. */
    ghost function ClusterAt(disk: seq<Sector>, c: int): (s: seq<Sector>)
      requires Fits(disk) && 2 <= c < totalClusters
      ensures |s| == sectorsPerCluster
    {
      LbaBounds(disk, c);
      disk[Lba(c)..Lba(c) + sectorsPerCluster]
    }

    /** The sectors of the clusters of p, one cluster after the other. */
    ghost function Data(disk: seq<Sector>, p: Path): seq<Sector>
      requires Fits(disk) && InData(totalClusters, p)
    {
      if p == [] then [] else Data(disk, p[..|p| - 1]) + ClusterAt(disk, p[|p| - 1])
    }

    lemma RawAtIsClusterAt(disk: seq<Sector>, c: int)
      requires Fits(disk) && 2 <= c < totalClusters
      ensures OnDisk(disk, c) && RawAt(disk, c) == ClusterAt(disk, c)
    {
      LbaComputed(disk, c);
    }

    /** For data clusters that is their data. */
    lemma {:induction false} RawDataIsData(disk: seq<Sector>, p: Path)
      requires Fits(disk) && InData(totalClusters, p)
      ensures forall i | 0 <= i < |p| :: OnDisk(disk, p[i])
      ensures RawData(disk, p) == Data(disk, p)
    {
      forall i | 0 <= i < |p| ensures OnDisk(disk, p[i]) {
        RawAtIsClusterAt(disk, p[i]);
      }
      if p != [] {
        RawDataIsData(disk, p[..|p| - 1]);
        RawAtIsClusterAt(disk, p[|p| - 1]);
      }
    }

    lemma {:induction false} DataLength(disk: seq<Sector>, p: Path)
      requires Fits(disk) && InData(totalClusters, p)
      ensures |Data(disk, p)| == Span(|p|)
    {
      if p != [] {
        DataLength(disk, p[..|p| - 1]);
      }
    }

    lemma {:induction false} DataConcat(disk: seq<Sector>, p: Path, q: Path)
      requires Fits(disk) && InData(totalClusters, p) && InData(totalClusters, q) && InData(totalClusters, p + q)
      ensures Data(disk, p + q) == Data(disk, p) + Data(disk, q)
      decreases |q|
    {
      if q == [] {
        assert p + q == p;
      } else {
        var front := q[..|q| - 1];
        assert (p + q)[..|p + q| - 1] == p + front;
        DataConcat(disk, p, front);
        assert Data(disk, p) + Data(disk, front) + ClusterAt(disk, q[|q| - 1])
            == Data(disk, p) + (Data(disk, front) + ClusterAt(disk, q[|q| - 1]));
      }
    }

    ghost function FilesOf(disk: seq<Sector>, chains: map<int, Path>): map<int, seq<Sector>>
      requires Fits(disk) && forall h | h in chains :: InData(totalClusters, chains[h])
    {
      map h | h in chains :: Data(disk, chains[h])
    }

    lemma SpanUpTo(j: nat, k: nat)
      requires j <= k && 0 <= sectorsPerCluster
      ensures 0 <= Span(j) <= Span(k)
    {
      if j < k {
        SpanGrows(j, k);
      } else if 0 < k {
        SpanGrows(0, k);
      }
    }

    /** A chain's contents depend on its own clusters only. */
    lemma {:induction false} DataUnaffected(disk0: seq<Sector>, disk1: seq<Sector>, p: Path)
      requires Fits(disk0) && Fits(disk1) && InData(totalClusters, p)
      requires forall i | 0 <= i < |p| :: ClusterAt(disk0, p[i]) == ClusterAt(disk1, p[i])
      ensures Data(disk0, p) == Data(disk1, p)
    {
      if p != [] {
        DataUnaffected(disk0, disk1, p[..|p| - 1]);
      }
    }

    /** The disk with cluster c's sectors replaced. */
    ghost function Put(disk: seq<Sector>, c: int, sectors: seq<Sector>): (after: seq<Sector>)
      requires Fits(disk) && 2 <= c < totalClusters && |sectors| == sectorsPerCluster
      ensures Fits(after)
    {
      LbaBounds(disk, c);
      disk[..Lba(c)] + sectors + disk[Lba(c) + sectorsPerCluster..]
    }

    /** The sectors in front of the first cluster. */
    ghost function Front(disk: seq<Sector>): seq<Sector>
      requires Fits(disk)
    {
      SpanUpTo(0, totalClusters - 2);
      disk[..firstDataSector]
    }

    /** The sectors behind the last cluster. */
    ghost function Behind(disk: seq<Sector>): seq<Sector>
      requires Fits(disk)
    {
      SpanUpTo(0, totalClusters - 2);
      disk[firstDataSector + Span(totalClusters - 2)..]
    }

    /** The sectors in front of and behind the clusters are the same. */
    ghost predicate SameOutside(disk0: seq<Sector>, disk: seq<Sector>)
      requires Fits(disk0) && Fits(disk)
    {
      && Front(disk) == Front(disk0)
      && Behind(disk) == Behind(disk0)
    }

    /** Every sector but those of the clusters of p is the same. */
    ghost predicate Spares(disk0: seq<Sector>, disk: seq<Sector>, p: Path) {
      && Fits(disk0) && Fits(disk) && SameOutside(disk0, disk)
      && forall c {:trigger ClusterAt(disk, c)} | 2 <= c < totalClusters && c !in p ::
        ClusterAt(disk, c) == ClusterAt(disk0, c)
    }

    lemma PutSameOutside(disk: seq<Sector>, c: int, sectors: seq<Sector>)
      requires Fits(disk) && 2 <= c < totalClusters && |sectors| == sectorsPerCluster
      ensures SameOutside(disk, Put(disk, c, sectors))
    {
      LbaBounds(disk, c);
      SpanGrows(c - 2, totalClusters - 2);
      SpanUpTo(0, c - 2);
      var after := Put(disk, c, sectors);
      assert after[..firstDataSector] == disk[..firstDataSector];
      assert after[Lba(c) + sectorsPerCluster..] == disk[Lba(c) + sectorsPerCluster..];
      var skip := firstDataSector + Span(totalClusters - 2) - (Lba(c) + sectorsPerCluster);
      assert after[Lba(c) + sectorsPerCluster..][skip..] == Behind(after);
      assert disk[Lba(c) + sectorsPerCluster..][skip..] == Behind(disk);
    }

    /** The clusters a write may use, in order: behind a free cluster come the other free ones
        from lo on, and behind a used cluster the rest of its chain. */
    ghost predicate IsPlan(f: Fat, lo: nat, plan: Path, isNew: bool, count: int)
      requires totalClusters <= |f|
    {
      && plan != [] && InData(totalClusters, plan)
      && (isNew ==> ListsFree(f[plan[0] := END_MARK], lo, totalClusters, plan[1..]))
      && (isNew ==> forall i {:trigger f[plan[i]]} | 0 <= i < |plan| :: f[plan[i]] == 0)
      && (!isNew ==> count <= |plan| && forall i {:trigger f[plan[i]]} | 0 <= i < count ::
            f[plan[i]] != 0 && (i + 1 < |plan| ==> f[plan[i]] == plan[i + 1]))
    }

    lemma PutThenAt(disk: seq<Sector>, c: int, sectors: seq<Sector>, d: int)
      requires Fits(disk) && 2 <= c < totalClusters && |sectors| == sectorsPerCluster
      requires 2 <= d < totalClusters
      ensures ClusterAt(Put(disk, c, sectors), d) == if c == d then sectors else ClusterAt(disk, d)
    {
      LbaBounds(disk, c);
      LbaBounds(disk, d);
      if c < d {
        LbaApart(c, d);
      } else if d < c {
        LbaApart(d, c);
      }
    }

    lemma PutSpares(disk: seq<Sector>, c: int, sectors: seq<Sector>)
      requires Fits(disk) && 2 <= c < totalClusters && |sectors| == sectorsPerCluster
      ensures Spares(disk, Put(disk, c, sectors), [c])
    {
      PutSameOutside(disk, c, sectors);
      forall d | 2 <= d < totalClusters && d !in [c]
        ensures ClusterAt(Put(disk, c, sectors), d) == ClusterAt(disk, d)
      {
        PutThenAt(disk, c, sectors, d);
      }
    }

    /** The sectors of the buffer that go to the i-th cluster of a chain. */
    ghost function Chunk(buffer: seq<Sector>, i: int): seq<Sector> {
      if 0 <= Span(i) <= Span(i) + sectorsPerCluster <= |buffer|
      then buffer[Span(i)..Span(i) + sectorsPerCluster] else []
    }

    /** The clusters of p hold the buffer, part by part. */
    ghost predicate Stores(disk: seq<Sector>, buffer: seq<Sector>, p: Path) {
      && Fits(disk) && InData(totalClusters, p)
      && forall i {:trigger ClusterAt(disk, p[i])} | 0 <= i < |p| :: ClusterAt(disk, p[i]) == Chunk(buffer, i)
    }

    /** What the writing loop has done after num clusters of the plan: those in done are
        linked up and hold their part of the buffer, and nothing else has changed. */
    ghost predicate Filled(f0: Fat, f: Fat, disk0: seq<Sector>, disk: seq<Sector>, buffer: seq<Sector>,
                           plan: Path, num: nat, done: set<int>)
    {
      && Fits(disk0) && Fits(disk) && SameOutside(disk0, disk)
      && totalClusters <= |f| == |f0|
      && num <= |plan| && InData(totalClusters, plan) && Parted(plan, num, done)
      && (forall i {:trigger f[plan[i]]} | 0 <= i < num ::
            f[plan[i]] == (if i + 1 < num then plan[i + 1] else END_MARK))
      && (forall c {:trigger f[c]} | 0 <= c < |f0| && c !in done :: f[c] == f0[c])
      && (forall i {:trigger ClusterAt(disk, plan[i])} | 0 <= i < num ::
            ClusterAt(disk, plan[i]) == Chunk(buffer, i))
      && (forall c {:trigger ClusterAt(disk, c)} | 2 <= c < totalClusters && c !in done ::
            ClusterAt(disk, c) == ClusterAt(disk0, c))
    }

    lemma LinkOneMore(f0: Fat, f: Fat, f1: Fat, plan: Path, num: nat, done: set<int>)
      requires |f1| == |f| == |f0| && InData(|f|, plan) && Distinct(plan)
      requires num < |plan| && Parted(plan, num, done)
      requires forall i {:trigger f[plan[i]]} | 0 <= i < num ::
        f[plan[i]] == (if i + 1 < num then plan[i + 1] else END_MARK)
      requires forall c {:trigger f[c]} | 0 <= c < |f0| && c !in done :: f[c] == f0[c]
      requires forall c | 0 <= c < |f| ::
        f1[c] == (if c == plan[num] then END_MARK else if num > 0 && c == plan[num - 1] then plan[num] else f[c])
      ensures forall i {:trigger f1[plan[i]]} | 0 <= i < num + 1 ::
        f1[plan[i]] == (if i < num then plan[i + 1] else END_MARK)
      ensures forall c {:trigger f1[c]} | 0 <= c < |f0| && c !in done + {plan[num]} :: f1[c] == f0[c]
    {
      forall i | 0 <= i < num + 1 ensures f1[plan[i]] == if i < num then plan[i + 1] else END_MARK {
        if i < num {
          assert f[plan[i]] == if i + 1 < num then plan[i + 1] else END_MARK;
        }
      }
      assert num > 0 ==> plan[num - 1] in done;
    }

    /** One turn of the writing loop: link the next cluster behind the last, mark it
        the end of the chain, and put its part of the buffer there. */
    lemma FillOneMore(f0: Fat, f: Fat, f1: Fat, disk0: seq<Sector>, disk: seq<Sector>, disk1: seq<Sector>,
                      buffer: seq<Sector>, plan: Path, num: nat, done: set<int>)
      requires Filled(f0, f, disk0, disk, buffer, plan, num, done)
      requires num < |plan| && Distinct(plan)
      requires |Chunk(buffer, num)| == sectorsPerCluster && disk1 == Put(disk, plan[num], Chunk(buffer, num))
      requires |f1| == |f|
      requires forall c | 0 <= c < |f| ::
        f1[c] == (if c == plan[num] then END_MARK else if num > 0 && c == plan[num - 1] then plan[num] else f[c])
      ensures Filled(f0, f1, disk0, disk1, buffer, plan, num + 1, done + {plan[num]})
    {
      var done1 := done + {plan[num]};
      PartedStep(plan, num, done);
      PutSameOutside(disk, plan[num], Chunk(buffer, num));
      forall c | 2 <= c < totalClusters
        ensures ClusterAt(disk1, c) == if c == plan[num] then Chunk(buffer, num) else ClusterAt(disk, c)
      {
        PutThenAt(disk, plan[num], Chunk(buffer, num), c);
      }
      LinkOneMore(f0, f, f1, plan, num, done);
      forall i | 0 <= i < num + 1 ensures ClusterAt(disk1, plan[i]) == Chunk(buffer, i) {
        if i < num { assert ClusterAt(disk, plan[i]) == Chunk(buffer, i) && plan[i] != plan[num]; }
      }
    }

    lemma {:induction false} StoredData(disk: seq<Sector>, buffer: seq<Sector>, p: Path, k: nat)
      requires Stores(disk, buffer, p) && k <= |p| && Span(|p|) <= |buffer|
      ensures 0 <= Span(k) <= |buffer| && Data(disk, p[..k]) == buffer[..Span(k)]
    {
      SpanUpTo(k, |p|);
      if k > 0 {
        StoredData(disk, buffer, p, k - 1);
        assert p[..k][..k - 1] == p[..k - 1];
        assert ClusterAt(disk, p[k - 1]) == Chunk(buffer, k - 1);
      }
    }

    lemma FilledIsRelinked(f0: Fat, f: Fat, disk0: seq<Sector>, disk: seq<Sector>, buffer: seq<Sector>,
                           plan: Path, num: nat, done: set<int>)
      requires Filled(f0, f, disk0, disk, buffer, plan, num, done) && 0 < num
      ensures Relinked(f0, f, plan[..num], [])
    {
      var p := plan[..num];
      forall i | 0 <= i < |p| ensures f[p[i]] == if i + 1 < |p| then p[i + 1] else END_MARK {
        assert f[plan[i]] == if i + 1 < num then plan[i + 1] else END_MARK;
      }
      forall c | 0 <= c < |f0| && c !in p ensures f[c] == f0[c] {
        PartedIsPrefix(plan, num, done, c);
      }
    }

    lemma FilledSpares(f0: Fat, f: Fat, disk0: seq<Sector>, disk: seq<Sector>, buffer: seq<Sector>,
                       plan: Path, num: nat, done: set<int>)
      requires Filled(f0, f, disk0, disk, buffer, plan, num, done)
      ensures Spares(disk0, disk, plan[..num]) && Stores(disk, buffer, plan[..num])
    {
      forall c | 2 <= c < totalClusters && c !in plan[..num] ensures ClusterAt(disk, c) == ClusterAt(disk0, c) {
        PartedIsPrefix(plan, num, done, c);
      }
      forall i | 0 <= i < num ensures ClusterAt(disk, plan[..num][i]) == Chunk(buffer, i) {
        assert ClusterAt(disk, plan[i]) == Chunk(buffer, i);
      }
    }

    /** The data of a chain that shares no cluster with p is as before. */
    lemma SparesData(disk0: seq<Sector>, disk: seq<Sector>, p: Path, q: Path)
      requires Spares(disk0, disk, p)
      requires InData(totalClusters, q) && forall i | 0 <= i < |q| :: q[i] !in p
      ensures Data(disk, q) == Data(disk0, q)
    {
      forall i | 0 <= i < |q| ensures ClusterAt(disk0, q[i]) == ClusterAt(disk, q[i]) {}
      DataUnaffected(disk0, disk, q);
    }
  }

  /** The geometry that mounting computes, in 32-bit arithmetic. */
  function MountedVolume(bpb: Bpb, firstSector: u32): Volume
    requires 0 < bpb.sectorsPerCluster
  {
    Volume(
      (firstSector + bpb.reservedSectors + bpb.fatSize * bpb.numFats) % 0x1_0000_0000,
      bpb.sectorsPerCluster,
      bpb.totalSectors / bpb.sectorsPerCluster)
  }

  /** Mounting counts a cluster for every sectorsPerCluster sectors of the partition, the
      reserved area and the tables included. So the clusters it will use lie inside
      the partition exactly when that area takes no more than two clusters and what the
      division leaves over. */
  lemma ClustersInsidePartition(bpb: Bpb, firstSector: u32)
    requires 0 < bpb.sectorsPerCluster
    requires firstSector + bpb.reservedSectors + bpb.fatSize * bpb.numFats < 0x1_0000_0000
    ensures var vol := MountedVolume(bpb, firstSector);
      (forall c | 2 <= c < vol.totalClusters ::
        vol.Lba(c) + bpb.sectorsPerCluster <= firstSector + bpb.totalSectors)
      <==> (vol.totalClusters <= 2
        || bpb.reservedSectors + bpb.fatSize * bpb.numFats
             <= 2 * bpb.sectorsPerCluster + bpb.totalSectors % bpb.sectorsPerCluster)
  {
    var vol := MountedVolume(bpb, firstSector);
    var n, spc := vol.totalClusters, bpb.sectorsPerCluster;
    assert bpb.totalSectors == n * spc + bpb.totalSectors % spc;
    if n > 2 {
      vol.SpanIsProduct(n - 2);
      assert (n - 2) * spc == n * spc - 2 * spc;
      assert vol.Lba(n - 1) + spc == vol.firstDataSector + vol.Span(n - 2);
      forall c | 2 <= c < n
        ensures vol.Lba(c) + spc <= vol.firstDataSector + vol.Span(n - 2)
      {
        vol.SpanGrows(c - 2, n - 2);
      }
    }
  }

  /** On an ordinary volume they do not: 32 reserved sectors and two tables of 100. */
  lemma ClustersOutsidePartition()
    ensures var vol := MountedVolume(Bpb(512, 8, 32, 2, 80000, 100), 2048);
      vol.totalClusters == 10000 && vol.Lba(9999) + 8 > 2048 + 80000
  {
    var vol := MountedVolume(Bpb(512, 8, 32, 2, 80000, 100), 2048);
    vol.SpanIsProduct(9997);
  }

  /** How many pieces of k bytes hold size bytes, the last one perhaps not full. */
  ghost function Pieces(size: int, k: int): (count: nat)
    requires 0 < k
    ensures 0 < size ==> 0 < count
    decreases size
  {
    if size <= 0 then 0 else 1 + Pieces(size - k, k)
  }

  /** They hold size bytes, and one piece less does not. */
  lemma {:induction false} PiecesHold(size: nat, k: int)
    requires 0 < k
    ensures size <= Pieces(size, k) * k
    ensures 0 < size ==> (Pieces(size, k) - 1) * k < size
    decreases size
  {
    if size > k {
      PiecesHold(size - k, k);
      assert Pieces(size, k) * k == Pieces(size - k, k) * k + k;
    } else if size > 0 {
      assert Pieces(size, k) == 1 + Pieces(size - k, k) == 1;
    }
  }

  lemma MulMono(a: int, b: int, k: int)
    requires a <= b && 0 <= k
    ensures a * k <= b * k
  {
  }

  lemma DivUnique(a: int, k: int, q: int)
    requires 0 < k && q * k <= a < (q + 1) * k
    ensures a / k == q
  {
    var d := a / k;
    assert a == d * k + a % k;
    if d > q { MulMono(q + 1, d, k); }
    if d < q { MulMono(d + 1, q, k); }
  }

  lemma DivSmall(a: nat, k: int)
    requires a < k
    ensures a / k == 0
  {
    DivUnique(a, k, 0);
  }

  lemma DivShift(a: nat, k: int)
    requires 0 < k
    ensures (a + k) / k == a / k + 1
  {
    DivUnique(a + k, k, a / k + 1);
  }

  lemma {:induction false} PiecesIsQuotient(size: nat, k: int)
    requires 0 < k
    ensures Pieces(size, k) == (size + k - 1) / k
    decreases size
  {
    if size > k {
      PiecesIsQuotient(size - k, k);
      DivShift(size - 1, k);
    } else if size > 0 {
      DivShift(size - 1, k);
      DivSmall(size - 1, k);
    } else {
      DivSmall(k - 1, k);
    }
  }

  lemma ModShift(x: int, q: int, m: int)
    requires 0 < m
    ensures (x + q * m) % m == x % m
  {
    var d := (x + q * m) / m - q - x / m;
    assert (x + q * m) % m - x % m == -(d * m);
    if d >= 1 { MulMono(1, d, m); }
    if d <= -1 { MulMono(d, -1, m); }
  }

  lemma AddMod(i: nat, k: int, m: int)
    requires 0 < m
    ensures (i * k % m + k) % m == (i + 1) * k % m
    ensures 0 * k == 0 && 1 * k == k
  {
    var q := i * k / m;
    assert i * k == q * m + i * k % m;
    assert (i + 1) * k == i * k + k;
    ModShift(i * k % m + k, q, m);
  }
}
