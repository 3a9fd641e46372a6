/** The kernel heap: a first-fit allocator over an array of cells, one for each 256-byte
    block. The last cell of an allocation is its BORDER; it is also the marker that the
    next allocation needs in front of it to be freed. */
module KernelHeap {
  import opened Machine

  /** A cell is a byte; those that stand for nothing are one value here. */
  datatype Cell = FREE | USED | BORDER | OTHER

  /** The layout as a value: the cells, and the live allocations as a map from the first
      cell of each to its length in cells. */
  datatype Layout = Layout(cells: seq<Cell>, live: map<int, int>)

  // ----- The layout invariant -----

  /** Cells s to s + n - 1 are an allocation: USED up to a final BORDER, with a BORDER in front. */
  ghost predicate IsBlock(cells: seq<Cell>, s: int, n: int) {
    && 1 <= s && 1 <= n && s + n <= |cells|
    && cells[s - 1] == BORDER
    && (forall i | s <= i < s + n - 1 :: cells[i] == USED)
    && cells[s + n - 1] == BORDER
  }

  predicate Within(i: int, s: int, n: int) {
    s <= i < s + n
  }

  /** Cell i belongs to a live allocation. */
  ghost predicate Owned(l: Layout, i: int) {
    exists s | s in l.live :: Within(i, s, l.live[s])
  }

  ghost predicate Apart(l: Layout, s: int, t: int)
    requires s in l.live && t in l.live
  {
    s + l.live[s] <= t || t + l.live[t] <= s
  }

  /** A byte that stands for nothing has no free cell behind it. */
  predicate ShutOff(cells: seq<Cell>, i: int) {
    0 <= i && i + 1 < |cells| && cells[i] == OTHER ==> cells[i + 1] != FREE
  }

  ghost predicate Valid(l: Layout) {
    && 0 < |l.cells| && l.cells[0] == BORDER
    && (forall s | s in l.live :: IsBlock(l.cells, s, l.live[s]))
    && (forall s, t {:trigger Apart(l, s, t)} | s in l.live && t in l.live && s != t :: Apart(l, s, t))
    && (forall i {:trigger Owned(l, i)} | 0 <= i < |l.cells| && l.cells[i] == USED :: Owned(l, i))
    && (forall i :: ShutOff(l.cells, i))
  }

  /** BORDER cells that end no live allocation. */
  ghost function Orphans(l: Layout): set<int> {
    set i | 0 <= i < |l.cells| && l.cells[i] == BORDER && !Owned(l, i)
  }

  ghost function OtherCells(l: Layout): set<int> {
    set i | 0 <= i < |l.cells| && l.cells[i] == OTHER
  }

  ghost function FreeCells(l: Layout): set<int> {
    set i | 0 <= i < |l.cells| && l.cells[i] == FREE
  }

  ghost function LiveCells(l: Layout): set<int> {
    set i | 0 <= i < |l.cells| && Owned(l, i)
  }

  // ----- Allocation -----

  ghost predicate FreeRun(cells: seq<Cell>, s: int, n: int) {
    0 <= s && s + n <= |cells| && forall i | s <= i < s + n :: cells[i] == FREE
  }

  /** s starts the lowest run of n free cells. */
  ghost predicate FirstRun(cells: seq<Cell>, s: int, n: int) {
    FreeRun(cells, s, n) && forall r | 0 <= r < s :: !FreeRun(cells, r, n)
  }

  /** The allocation [s, s + n) is added, its cells are marked, and nothing else changes. */
  ghost predicate Allocated(l: Layout, m: Layout, s: int, n: int) {
    && |m.cells| == |l.cells| && m.live == l.live[s := n]
    && 1 <= n && 0 <= s && s + n <= |l.cells|
    && (forall i | 0 <= i < |l.cells| :: m.cells[i] ==
          (if i == s + n - 1 then BORDER else if Within(i, s, n) then USED else l.cells[i]))
  }

  /** What a call for n cells does: the lowest run that is long enough, or nothing
      when there is none. */
  ghost predicate MallocStep(l: Layout, m: Layout, n: int, s: int) {
    if exists r :: FreeRun(l.cells, r, n) && 0 < n
    then FirstRun(l.cells, s, n) && Allocated(l, m, s, n)
    else s == -1 && m == l
  }

  /** A USED cell is followed by another cell of its allocation. */
  lemma UsedIsFollowed(l: Layout, i: int)
    requires Valid(l) && 0 <= i < |l.cells| && l.cells[i] == USED
    ensures i + 1 < |l.cells| && l.cells[i + 1] != FREE
  {
    assert Owned(l, i);
    var t :| t in l.live && Within(i, t, l.live[t]);
    assert IsBlock(l.cells, t, l.live[t]);
  }

  lemma BlockIsNotFree(l: Layout, t: int)
    requires Valid(l) && t in l.live
    ensures forall i | Within(i, t, l.live[t]) :: 0 < i < |l.cells| && l.cells[i] != FREE
  {
    assert IsBlock(l.cells, t, l.live[t]);
  }

  /** The cell in front of the lowest run is a BORDER, because no USED cell and no byte that
      stands for nothing is followed by a free one. */
  lemma RunFollowsBorder(l: Layout, s: int, n: int)
    requires Valid(l) && FirstRun(l.cells, s, n) && 0 < n
    ensures 1 <= s && l.cells[s - 1] == BORDER
  {
    assert l.cells[s] == FREE;
    assert FreeRun(l.cells, s - 1, n) <==> l.cells[s - 1] == FREE;
    assert ShutOff(l.cells, s - 1);
    if l.cells[s - 1] == USED {
      UsedIsFollowed(l, s - 1);
    }
  }

  lemma RunIsUnowned(l: Layout, s: int, n: int, t: int)
    requires Valid(l) && FreeRun(l.cells, s, n) && t in l.live && 0 < n
    ensures s + n <= t || t + l.live[t] <= s
  {
    BlockIsNotFree(l, t);
    assert IsBlock(l.cells, t, l.live[t]);
    var startsInside, coversStart := Within(t, t, l.live[t]), Within(s, t, l.live[t]);
  }

  lemma AllocatedIsValid(l: Layout, m: Layout, s: int, n: int)
    requires Valid(l) && FirstRun(l.cells, s, n) && 0 < n && Allocated(l, m, s, n)
    ensures Valid(m) && s !in l.live
  {
    RunFollowsBorder(l, s, n);
    forall t | t in l.live
      ensures IsBlock(m.cells, t, l.live[t]) && (s + n <= t || t + l.live[t] <= s)
    {
      RunIsUnowned(l, s, n, t);
      assert IsBlock(l.cells, t, l.live[t]);
    }
    assert IsBlock(m.cells, s, n);
    forall i | 0 <= i < |m.cells| && m.cells[i] == USED ensures Owned(m, i) {
      if Within(i, s, n) {
        assert s in m.live && Within(i, s, m.live[s]);
      } else {
        assert Owned(l, i);
        var t :| t in l.live && Within(i, t, l.live[t]);
        assert t in m.live && Within(i, t, m.live[t]);
      }
    }
    forall t, u | t in m.live && u in m.live && t != u ensures Apart(m, t, u) {
      assert t in l.live && u in l.live ==> Apart(l, t, u);
    }
    forall i ensures ShutOff(m.cells, i) {
      assert ShutOff(l.cells, i);
    }
  }

  // ----- Freeing -----

  /** The border at the end of the block is freed when a free cell follows it. */
  predicate BorderGoes(cells: seq<Cell>, last: int) {
    0 <= last && last + 1 < |cells| && cells[last + 1] == FREE
  }

  /** The allocation at s is removed and its cells freed, its BORDER only when a free
      cell follows; nothing else changes. */
  ghost predicate FreedAt(l: Layout, m: Layout, s: int) {
    && s in l.live
    && |m.cells| == |l.cells| && m.live == l.live - {s}
    && var last := s + l.live[s] - 1;
      forall i | 0 <= i < |l.cells| :: m.cells[i] ==
        (if s <= i < last || (i == last && BorderGoes(l.cells, last)) then FREE else l.cells[i])
  }

  ghost predicate DropsOrphan(l: Layout, s: int) {
    1 <= s < |l.cells| && l.cells[s - 1] == BORDER && s in Orphans(l) && BorderGoes(l.cells, s)
  }

  /** What freeing cell number s does. A number that is not live changes nothing, unless
      it is an orphan border between a BORDER and a free cell, which becomes free. */
  ghost predicate FreeStep(l: Layout, m: Layout, s: int) {
    if s in l.live then FreedAt(l, m, s)
    else m == if DropsOrphan(l, s) then l.(cells := l.cells[s := FREE]) else l
  }

  lemma FreedSparesOthers(l: Layout, m: Layout, s: int, t: int)
    requires Valid(l) && FreedAt(l, m, s) && t in l.live && t != s
    ensures IsBlock(m.cells, t, l.live[t])
  {
    assert IsBlock(l.cells, s, l.live[s]) && IsBlock(l.cells, t, l.live[t]);
    assert Apart(l, s, t);
    BlockIsNotFree(l, t);
    assert Within(t, t, l.live[t]);
  }

  lemma FreedIsValid(l: Layout, m: Layout, s: int)
    requires Valid(l) && FreedAt(l, m, s)
    ensures Valid(m)
  {
    assert IsBlock(l.cells, s, l.live[s]);
    forall i ensures ShutOff(m.cells, i) {
      assert ShutOff(l.cells, i);
    }
    forall t | t in m.live ensures IsBlock(m.cells, t, m.live[t]) {
      FreedSparesOthers(l, m, s, t);
    }
    forall t, u | t in m.live && u in m.live && t != u ensures Apart(m, t, u) {
      assert Apart(l, t, u);
    }
    forall i | 0 <= i < |m.cells| && m.cells[i] == USED ensures Owned(m, i) {
      assert Owned(l, i);
      var t :| t in l.live && Within(i, t, l.live[t]);
      assert t in m.live && Within(i, t, m.live[t]);
    }
  }

  lemma DroppedIsValid(l: Layout, s: int)
    requires Valid(l) && DropsOrphan(l, s)
    ensures Valid(l.(cells := l.cells[s := FREE]))
  {
    var m := l.(cells := l.cells[s := FREE]);
    forall i ensures ShutOff(m.cells, i) {
      assert ShutOff(l.cells, i);
    }
    forall t | t in m.live ensures IsBlock(m.cells, t, m.live[t]) {
      assert IsBlock(l.cells, t, l.live[t]);
      BlockIsNotFree(l, t);
      assert Within(t, t, l.live[t]);
      assert !Owned(l, s) && !Within(s, t, l.live[t]);
    }
    forall t, u | t in m.live && u in m.live && t != u ensures Apart(m, t, u) {
      assert Apart(l, t, u);
    }
    forall i | 0 <= i < |m.cells| && m.cells[i] == USED ensures Owned(m, i) {
      assert Owned(l, i);
      var t :| t in l.live && Within(i, t, l.live[t]);
      assert t in m.live && Within(i, t, m.live[t]);
    }
  }

  /** A cell behind a BORDER that is USED or a BORDER starts a live allocation or is an orphan
      border, so the test in kfree lets no other such cell through. */
  lemma BehindBorder(l: Layout, s: int)
    requires Valid(l) && 1 <= s < |l.cells| && l.cells[s - 1] == BORDER
    ensures s in l.live || l.cells[s] == FREE || l.cells[s] == OTHER || s in Orphans(l)
  {
    assert l.cells[s] == USED ==> Owned(l, s);
    if Owned(l, s) {
      var t :| t in l.live && Within(s, t, l.live[t]);
      assert IsBlock(l.cells, t, l.live[t]);
    }
  }

  /** A freed allocation of one cell is what the next allocation of one cell gets again, exactly
      when its cell became free and no lower one is. */
  lemma OneCellComesBack(l: Layout, m: Layout, s: int)
    requires Valid(l) && s in l.live && l.live[s] == 1 && FreedAt(l, m, s)
    ensures m.cells[s] == FREE <==> BorderGoes(l.cells, s)
    ensures FirstRun(m.cells, s, 1) <==> BorderGoes(l.cells, s) && forall k | 0 <= k < s :: l.cells[k] != FREE
  {
    assert IsBlock(l.cells, s, 1);
    forall k | 0 <= k < s
      ensures m.cells[k] == l.cells[k] && (FreeRun(m.cells, k, 1) <==> l.cells[k] == FREE)
    {
    }
    assert FreeRun(m.cells, s, 1) <==> m.cells[s] == FREE;
  }

  /** Where the USED cells from s on end. */
  ghost function UsedEnd(cells: seq<Cell>, s: nat): (e: nat)
    ensures s <= e && forall i | s <= i < e :: i < |cells| && cells[i] == USED
    ensures e < |cells| ==> cells[e] != USED
    decreases |cells| - s
  {
    if s < |cells| && cells[s] == USED then UsedEnd(cells, s + 1) else s
  }

  /** The USED cells from s on become free, and a BORDER behind them when a free cell follows. */
  ghost function Cleared(cells: seq<Cell>, s: nat): (after: seq<Cell>)
    ensures |after| == |cells|
  {
    var e := UsedEnd(cells, s);
    seq(|cells|, i requires 0 <= i < |cells| =>
      if s <= i < e || (i == e && cells[e] == BORDER && BorderGoes(cells, e)) then FREE else cells[i])
  }

  /** The USED cells of an allocation end at its BORDER. */
  lemma LiveEnd(l: Layout, s: nat)
    requires Valid(l) && s in l.live
    ensures UsedEnd(l.cells, s) == s + l.live[s] - 1
  {
    assert IsBlock(l.cells, s, l.live[s]);
    var e, last := UsedEnd(l.cells, s), s + l.live[s] - 1;
    assert l.cells[last] == BORDER;
  }

  /** Behind a BORDER that is just what freeing an allocation means, or what freeing anything
      else leaves. */
  lemma ClearedIsFreed(l: Layout, s: nat)
    requires Valid(l) && 1 <= s <= |l.cells| && l.cells[s - 1] == BORDER
    ensures
      if s in l.live then FreedAt(l, Layout(Cleared(l.cells, s), l.live - {s}), s)
      else Cleared(l.cells, s) == if DropsOrphan(l, s) then l.cells[s := FREE] else l.cells
  {
    if s in l.live {
      LiveEnd(l, s);
    } else if s < |l.cells| {
      BehindBorder(l, s);
      assert UsedEnd(l.cells, s) == s;
    }
  }

  /** Freeing what was just allocated undoes the allocation exactly when a free cell follows
      it; otherwise its BORDER stays behind. */
  lemma MallocThenFree(l: Layout, m: Layout, k: Layout, s: int, n: int)
    requires Valid(l) && FirstRun(l.cells, s, n) && 0 < n && Allocated(l, m, s, n) && FreedAt(m, k, s)
    ensures k.live == l.live
    ensures k.cells == (if BorderGoes(l.cells, s + n - 1) then l.cells else l.cells[s + n - 1 := BORDER])
    ensures k == l <==> BorderGoes(l.cells, s + n - 1)
  {
    AllocatedIsValid(l, m, s, n);
    assert l.cells[s + n - 1] == FREE;
  }

  // ----- Runs -----

  datatype Call = Malloc(blocks: int, at: int) | Free(at: int)

  ghost predicate Step(l: Layout, call: Call, m: Layout) {
    match call
    case Malloc(blocks, at) => MallocStep(l, m, blocks, at)
    case Free(at) => FreeStep(l, m, at)
  }

  ghost predicate Run(trace: seq<Layout>, calls: seq<Call>) {
    && |trace| == |calls| + 1
    && (forall i {:trigger calls[i]} | 0 <= i < |calls| :: Step(trace[i], calls[i], trace[i + 1]))
  }

  ghost function Frees(calls: seq<Call>): nat {
    if calls == [] then 0 else Frees(calls[..|calls| - 1]) + if calls[|calls| - 1].Free? then 1 else 0
  }

  lemma FreedOwned(l: Layout, m: Layout, s: int, i: int)
    requires Valid(l) && FreedAt(l, m, s) && 0 <= i < |l.cells|
    ensures Owned(m, i) <==> Owned(l, i) && !Within(i, s, l.live[s])
  {
    if Owned(m, i) {
      var t :| t in m.live && Within(i, t, m.live[t]);
      assert t in l.live && Within(i, t, l.live[t]) && Apart(l, s, t);
    }
    if Owned(l, i) {
      var t :| t in l.live && Within(i, t, l.live[t]);
      assert t != s ==> t in m.live && Within(i, t, m.live[t]);
    }
  }

  lemma FreedOrphans(l: Layout, m: Layout, s: int)
    requires Valid(l) && FreedAt(l, m, s)
    ensures var last := s + l.live[s] - 1;
      Orphans(m) == Orphans(l) + if BorderGoes(l.cells, last) then {} else {last}
  {
    var last := s + l.live[s] - 1;
    assert IsBlock(l.cells, s, l.live[s]);
    forall i ensures i in Orphans(m) <==> i in Orphans(l) + if BorderGoes(l.cells, last) then {} else {last} {
      if 0 <= i < |l.cells| {
        FreedOwned(l, m, s, i);
        assert Within(i, s, l.live[s]) ==> Owned(l, i);
      }
    }
  }

  lemma DroppedOrphans(l: Layout, s: int)
    requires Valid(l) && DropsOrphan(l, s)
    ensures Orphans(l.(cells := l.cells[s := FREE])) == Orphans(l) - {s}
  {
    var m := l.(cells := l.cells[s := FREE]);
    forall i ensures Owned(m, i) <==> Owned(l, i) {
      if Owned(l, i) {
        var t :| t in l.live && Within(i, t, l.live[t]);
        assert t in m.live && Within(i, t, m.live[t]);
      }
      if Owned(m, i) {
        var t :| t in m.live && Within(i, t, m.live[t]);
        assert t in l.live && Within(i, t, l.live[t]);
      }
    }
  }

  lemma AllocatedOthers(l: Layout, m: Layout, s: int, n: int)
    requires FirstRun(l.cells, s, n) && Allocated(l, m, s, n)
    ensures OtherCells(m) == OtherCells(l)
  {
    assert forall i | Within(i, s, n) :: l.cells[i] == FREE;
  }

  lemma FreedOthers(l: Layout, m: Layout, s: int)
    requires Valid(l) && FreedAt(l, m, s)
    ensures OtherCells(m) == OtherCells(l)
  {
    assert IsBlock(l.cells, s, l.live[s]);
  }

  lemma AllocatedOrphans(l: Layout, m: Layout, s: int, n: int)
    requires Valid(l) && FirstRun(l.cells, s, n) && 0 < n && Allocated(l, m, s, n)
    ensures Orphans(m) == Orphans(l)
    ensures forall i :: i in FreeCells(l) <==> i in FreeCells(m) || Within(i, s, n)
  {
    AllocatedIsValid(l, m, s, n);
    forall i | 0 <= i < |l.cells| ensures Owned(m, i) <==> Owned(l, i) || Within(i, s, n) {
      if Within(i, s, n) {
        assert s in m.live && Within(i, s, m.live[s]);
      }
      if Owned(l, i) {
        var t :| t in l.live && Within(i, t, l.live[t]);
        assert t in m.live && Within(i, t, m.live[t]);
      }
    }
    forall i | Within(i, s, n) ensures l.cells[i] == FREE && i !in Orphans(m) {
      assert Owned(m, i);
    }
  }

  lemma StepKeepsValid(l: Layout, call: Call, m: Layout)
    requires Valid(l) && Step(l, call, m)
    ensures Valid(m) && |m.cells| == |l.cells|
    ensures |Orphans(m)| <= |Orphans(l)| + if call.Free? then 1 else 0
    ensures OtherCells(m) == OtherCells(l)
  {
    match call
    case Malloc(blocks, at) =>
      if m != l {
        AllocatedIsValid(l, m, at, blocks);
        AllocatedOrphans(l, m, at, blocks);
        AllocatedOthers(l, m, at, blocks);
      }
    case Free(at) =>
      if at in l.live {
        FreedIsValid(l, m, at);
        FreedOrphans(l, m, at);
        FreedOthers(l, m, at);
      } else if DropsOrphan(l, at) {
        DroppedIsValid(l, at);
        DroppedOrphans(l, at);
      }
  }

  /** Over any run of allocations and frees, whatever numbers are freed, the layout stays
      valid, and there are at most as many orphan borders more as frees. */
  lemma {:induction false} RunKeepsLayout(trace: seq<Layout>, calls: seq<Call>, k: nat)
    requires Run(trace, calls) && k <= |calls|
    requires Valid(trace[0])
    ensures Valid(trace[k]) && |trace[k].cells| == |trace[0].cells|
    ensures |Orphans(trace[k])| <= |Orphans(trace[0])| + Frees(calls[..k])
    ensures OtherCells(trace[k]) == OtherCells(trace[0])
  {
    if k > 0 {
      RunKeepsLayout(trace, calls, k - 1);
      assert Step(trace[k - 1], calls[k - 1], trace[k]);
      StepKeepsValid(trace[k - 1], calls[k - 1], trace[k]);
      assert calls[..k][..k - 1] == calls[..k - 1];
    }
  }

  ghost function Indices(n: nat): set<int> {
    if n == 0 then {} else Indices(n - 1) + {n - 1}
  }

  lemma {:induction false} IndexCount(n: nat)
    ensures |Indices(n)| == n
    ensures forall i :: i in Indices(n) <==> 0 <= i < n
  {
    if n > 0 {
      IndexCount(n - 1);
    }
  }

  lemma LiveIsMarked(l: Layout, i: int)
    requires Valid(l) && 0 <= i < |l.cells|
    ensures Owned(l, i) ==> l.cells[i] == USED || l.cells[i] == BORDER
    ensures l.cells[i] == USED ==> Owned(l, i)
  {
    if Owned(l, i) {
      var t :| t in l.live && Within(i, t, l.live[t]);
      assert IsBlock(l.cells, t, l.live[t]);
    }
  }

  /** i is counted in one of the sets, if it is a cell. */
  predicate CountedOnce(a: set<int>, b: set<int>, c: set<int>, d: set<int>, n: nat, i: int) {
    && (i in a || i in b || i in c || i in d <==> 0 <= i < n)
    && !(i in a && i in b) && !((i in a || i in b) && i in c) && !((i in a || i in b || i in c) && i in d)
  }

  lemma FourParts(a: set<int>, b: set<int>, c: set<int>, d: set<int>, n: nat)
    requires forall i :: CountedOnce(a, b, c, d, n, i)
    ensures |a| + |b| + |c| + |d| == n
  {
    IndexCount(n);
    forall i ensures !(i in a && i in b) && !(i in a + b && i in c) && !(i in a + b + c && i in d)
      ensures i in a + b + c + d <==> i in Indices(n)
    {
      assert CountedOnce(a, b, c, d, n, i);
    }
    assert |a + b + c| == |a + b| + |c|;
    assert a + b + c + d == Indices(n);
  }

  /** Free cells, live cells, orphan borders and bytes that stand for nothing are all the cells. */
  lemma CellsAddUp(l: Layout)
    requires Valid(l)
    ensures |FreeCells(l)| + |LiveCells(l)| + |Orphans(l)| + |OtherCells(l)| == |l.cells|
  {
    forall i ensures CountedOnce(FreeCells(l), LiveCells(l), Orphans(l), OtherCells(l), |l.cells|, i) {
      if 0 <= i < |l.cells| { LiveIsMarked(l, i); }
    }
    FourParts(FreeCells(l), LiveCells(l), Orphans(l), OtherCells(l), |l.cells|);
  }

  // ----- The heap itself -----

  /** No cell but the first is USED, and behind a byte that stands for nothing there is no
      free cell. */
  ghost predicate Clear(cells: seq<Cell>) {
    forall i | 1 <= i < |cells| :: cells[i] != USED && ShutOff(cells, i)
  }

  /** Without an allocation the layout holds for just these, whatever the first cell was. */
  lemma EmptyIsValid(cells: seq<Cell>)
    requires 0 < |cells|
    ensures Valid(Layout(cells[0 := BORDER], map[])) <==> Clear(cells)
  {
    var l := Layout(cells[0 := BORDER], map[]);
    forall i | 1 <= i < |cells|
      ensures !Owned(l, i) && l.cells[i] == cells[i] && (ShutOff(l.cells, i) <==> ShutOff(cells, i))
    {
    }
    if Valid(l) {
      forall i | 1 <= i < |cells| ensures cells[i] != USED && ShutOff(cells, i) {
        assert ShutOff(l.cells, i) && !Owned(l, i);
      }
    }
    if Clear(cells) {
      forall i ensures ShutOff(l.cells, i) && (0 <= i < |cells| ==> l.cells[i] != USED) {
        if 1 <= i < |cells| { assert ShutOff(cells, i); }
      }
    }
  }

  /** What goes wrong otherwise: the lowest free cell is not behind a BORDER, and kfree refuses
      the pointer that kmalloc has given for it. */
  lemma UnmarkedNeighbour(l: Layout, i: int)
    requires 0 <= i && i + 1 < |l.cells| && l.cells[i + 1] == FREE && (l.cells[i] == USED || l.cells[i] == OTHER)
    requires forall k | 0 <= k < i :: l.cells[k] != FREE
    ensures FirstRun(l.cells, i + 1, 1) && l.cells[i] != BORDER
  {
    forall k | 0 <= k < i + 1 ensures !FreeRun(l.cells, k, 1) {
      assert l.cells[k] != FREE;
    }
  }

  /** Where every cell was free, the first is the only orphan. */
  lemma FreshHeap(cells: seq<Cell>)
    requires 0 < |cells| && forall i | 0 <= i < |cells| :: cells[i] == FREE
    ensures Valid(Layout(cells[0 := BORDER], map[])) && Orphans(Layout(cells[0 := BORDER], map[])) == {0}
  {
    EmptyIsValid(cells);
    var l := Layout(cells[0 := BORDER], map[]);
    assert !Owned(l, 0);
  }

  const HEAP_BLK_COUNT: nat := 16 * 1000
  const HEAP_BLK_SIZE: nat := 256

  /** How many cells an allocation of size bytes takes. */
  function Blocks(size: nat): nat {
    (size + HEAP_BLK_SIZE - 1) / HEAP_BLK_SIZE
  }

  /** That many blocks of 256 bytes hold size bytes, and one block less does not. */
  lemma BlocksHold(size: nat)
    ensures size <= Blocks(size) * 256
    ensures 0 < size ==> (Blocks(size) - 1) * 256 < size
  {
  }

  predicate Holds(blocks: int, size: int) {
    (blocks - 1) * 256 < size <= blocks * 256
  }

  /** The sizes asked for, by the first cell of each allocation that was not freed since: these
      are the live allocations, and each has the cells that its size takes. */
  ghost predicate Booked(live: map<int, int>, requests: map<int, nat>) {
    live.Keys == requests.Keys && forall at | at in live :: Holds(live[at], requests[at])
  }

  /** No byte belongs to two requests, and all lie in the heap, behind its first block. */
  lemma RequestsAreApart(l: Layout, requests: map<int, nat>, s: int, t: int)
    requires Valid(l) && Booked(l.live, requests) && s in requests && t in requests
    ensures 256 <= s * 256 && s * 256 + requests[s] <= |l.cells| * 256
    ensures s != t ==> s * 256 + requests[s] <= t * 256 || t * 256 + requests[t] <= s * 256
  {
    assert IsBlock(l.cells, s, l.live[s]);
    assert s != t ==> Apart(l, s, t);
  }

  /** The size bytes from a block on lie in blocks of the heap that are all free. */
  ghost predicate BytesFree(cells: seq<Cell>, first: int, size: nat) {
    && 0 <= first && first * 256 + size <= |cells| * 256
    && forall i | first <= i < |cells| && i * 256 < first * 256 + size :: cells[i] == FREE
  }

  lemma BytesAreBlocks(cells: seq<Cell>, first: int, size: nat)
    requires 0 < size
    ensures BytesFree(cells, first, size) <==> FreeRun(cells, first, Blocks(size))
  {
    BlocksHold(size);
    if FreeRun(cells, first, Blocks(size)) {
      assert forall i | first <= i < |cells| && i * 256 < first * 256 + size :: i < first + Blocks(size);
    }
  }

  /** The blocks of the size bytes at block s are marked, the last one as a BORDER, and no other. */
  ghost predicate BytesMarked(cells: seq<Cell>, after: seq<Cell>, s: int, size: nat) {
    && |after| == |cells|
    && forall i | 0 <= i < |cells| ::
      after[i] == (if !(s * 256 <= i * 256 < s * 256 + size) then cells[i]
                   else if (i + 1) * 256 < s * 256 + size then USED else BORDER)
  }

  /** The blocks of the size bytes at block s are freed, the last one only when there is a block
      behind it and that is free, and no other. */
  ghost predicate BytesFreed(cells: seq<Cell>, after: seq<Cell>, s: int, size: nat) {
    && |after| == |cells|
    && forall i | 0 <= i < |cells| ::
      after[i] == (if !(s * 256 <= i * 256 < s * 256 + size) then cells[i]
                   else if (i + 1) * 256 < s * 256 + size then FREE
                   else if i + 1 < |cells| && cells[i + 1] == FREE then FREE else BORDER)
  }

  /** The size bytes at block s are in the heap, behind its first block, and no request has any. */
  ghost predicate BytesApart(requests: map<int, nat>, s: int, size: nat) {
    && 256 <= s * 256 && s * 256 + size <= 16_000 * 256
    && forall t | t in requests :: s * 256 + size <= t * 256 || t * 256 + requests[t] <= s * 256
  }

  /** An allocation of size bytes takes the lowest ones that are free and marks their blocks. */
  lemma AllocatedTells(l: Layout, m: Layout, s: int, size: nat)
    requires 0 < size && FirstRun(l.cells, s, Blocks(size)) && Allocated(l, m, s, Blocks(size))
    ensures BytesFree(l.cells, s, size) && forall first | first < s :: !BytesFree(l.cells, first, size)
    ensures BytesMarked(l.cells, m.cells, s, size)
  {
    BlocksHold(size);
    BytesAreBlocks(l.cells, s, size);
    forall first | first < s ensures !BytesFree(l.cells, first, size) {
      BytesAreBlocks(l.cells, first, size);
    }
  }

  lemma NoRunNoBytes(cells: seq<Cell>, size: nat)
    requires 0 < size && forall r :: !FreeRun(cells, r, Blocks(size))
    ensures forall first :: !BytesFree(cells, first, size)
  {
    forall first ensures !BytesFree(cells, first, size) {
      BytesAreBlocks(cells, first, size);
    }
  }

  /** The bytes of a new allocation are nobody else's. */
  lemma AllocatedIsBooked(l: Layout, m: Layout, requests: map<int, nat>, s: int, size: nat)
    requires Valid(l) && Booked(l.live, requests) && 0 < size && |l.cells| == HEAP_BLK_COUNT
    requires FirstRun(l.cells, s, Blocks(size)) && Allocated(l, m, s, Blocks(size))
    ensures s !in requests && Booked(m.live, requests[s := size]) && BytesApart(requests, s, size)
  {
    BlocksHold(size);
    AllocatedIsValid(l, m, s, Blocks(size));
    var booked := requests[s := size];
    RequestsAreApart(m, booked, s, s);
    forall t | t in requests ensures s * 256 + size <= t * 256 || t * 256 + requests[t] <= s * 256 {
      assert booked[t] == requests[t];
      RequestsAreApart(m, booked, s, t);
    }
  }

  /** Freeing an allocation frees the bytes that were asked for. */
  lemma FreedTells(l: Layout, m: Layout, requests: map<int, nat>, s: int)
    requires Valid(l) && Booked(l.live, requests) && FreedAt(l, m, s)
    ensures Booked(m.live, requests - {s}) && BytesFreed(l.cells, m.cells, s, requests[s])
  {
    assert IsBlock(l.cells, s, l.live[s]) && Holds(l.live[s], requests[s]);
  }

  /** What clearing the cells behind a BORDER does. */
  lemma ClearedBehind(l: Layout, m: Layout, requests: map<int, nat>, s: nat)
    requires Valid(l) && Booked(l.live, requests) && 1 <= s <= |l.cells| && l.cells[s - 1] == BORDER
    requires m == Layout(Cleared(l.cells, s), l.live - {s})
    ensures Valid(m) && FreeStep(l, m, s) && Booked(m.live, requests - {s})
    ensures s in requests ==> BytesFreed(l.cells, m.cells, s, requests[s])
  {
    ClearedIsFreed(l, s);
    if s in l.live {
      FreedIsValid(l, m, s);
      FreedTells(l, m, requests, s);
    } else {
      assert l.live - {s} == l.live && requests - {s} == requests;
      if DropsOrphan(l, s) { DroppedIsValid(l, s); }
    }
  }

  /** A free run that ends at cell last is no longer than the free cells counted there. */
  lemma RunEndsHere(cells: seq<Cell>, last: nat, count: nat, n: nat)
    requires count <= last + 1 <= |cells| && count < n
    requires count <= last ==> cells[last - count] != FREE
    requires forall r | r + n <= last :: !FreeRun(cells, r, n)
    ensures forall r | r + n <= last + 1 :: !FreeRun(cells, r, n)
  {
    forall r | r + n == last + 1 ensures !FreeRun(cells, r, n) {
      if 0 <= r {
        assert r <= last - count;
      }
    }
  }

  class Heap {
    const heapOffset: nat
    const memoryBitmap: array<Cell>
    ghost var live: map<int, int>

    // the sizes that were asked for, by first cell
    ghost var requests: map<int, nat>

    // the calls so far, and the layouts they led through
    ghost var trace: seq<Layout>
    ghost var calls: seq<Call>

    ghost function Now(): Layout
      reads this, memoryBitmap
    {
      Layout(memoryBitmap[..], live)
    }

    ghost predicate Ready()
      reads this, memoryBitmap
    {
      && 0 < heapOffset && heapOffset + HEAP_BLK_COUNT * HEAP_BLK_SIZE < TWO_64
      && memoryBitmap.Length == HEAP_BLK_COUNT
      && Valid(Now())
    }

    /** The calls so far are a run that led to the layout as it is. */
    ghost predicate Recorded()
      reads this, memoryBitmap
    {
      Run(trace, calls) && trace[|calls|] == Now() && Booked(live, requests)
    }

    /** The record goes on with a call that led to the layout as it is. */
    ghost method Record(l: Layout, call: Call)
      requires Run(trace, calls) && trace[|calls|] == l && Step(l, call, Now()) && Booked(live, requests)
      modifies this`trace, this`calls
      ensures Recorded() && trace == old(trace) + [Now()] && calls == old(calls) + [call]
    {
      trace, calls := trace + [Now()], calls + [call];
    }

    /** However the heap was used: there are at most as many more orphan borders as frees. */
    lemma OrphansAreFew()
      requires Recorded() && Valid(trace[0])
      ensures |Orphans(Now())| <= |Orphans(trace[0])| + Frees(calls)
    {
      RunKeepsLayout(trace, calls, |calls|);
      assert calls[..|calls|] == calls;
    }

    /** Takes over a cell array as it is and marks cell 0. The others may hold anything; the code
        does not see to it that they are Clear. */
    constructor (heapOffset: nat, memoryBitmap: array<Cell>)
      requires 0 < heapOffset && heapOffset + HEAP_BLK_COUNT * HEAP_BLK_SIZE < TWO_64
      requires memoryBitmap.Length == HEAP_BLK_COUNT
      modifies memoryBitmap
      ensures this.heapOffset == heapOffset && this.memoryBitmap == memoryBitmap
      ensures Now() == Layout(old(memoryBitmap[..])[0 := BORDER], map[]) && Recorded() && calls == []
      ensures Ready() <==> Clear(old(memoryBitmap[..]))
    {
      this.heapOffset, this.memoryBitmap, live, requests := heapOffset, memoryBitmap, map[], map[];
      new;
      ghost var cells := memoryBitmap[..];
      memoryBitmap[0] := BORDER;
      assert memoryBitmap[..] == cells[0 := BORDER];
      trace, calls := [Now()], [];
      EmptyIsValid(cells);
    }

    /** The address of a cell's block, or NULL. */
    function Address(at: int): int {
      if at < 0 then 0 else heapOffset + at * HEAP_BLK_SIZE
    }

    /** Bytes into blocks, in 64-bit arithmetic: a size too near the top wraps to none. */
    method CountBlocks(size: nat) returns (blocks: nat)
      requires 0 < size < TWO_64
      ensures if Blocks(size) * HEAP_BLK_SIZE < TWO_64 then blocks == Blocks(size) else blocks == 0
    {
      var remainder := size % HEAP_BLK_SIZE;
      blocks := size - remainder;
      if remainder != 0 {
        blocks := (blocks + HEAP_BLK_SIZE) % TWO_64;
      }
      blocks := blocks / HEAP_BLK_SIZE;
    }

    /** The scan for the first run of free cells; currentIndex is its last cell. */
    method FindRun(blocks: nat) returns (found: bool, currentIndex: nat)
      ensures found ==> 0 < blocks <= currentIndex + 1 <= memoryBitmap.Length
      ensures found ==> FirstRun(memoryBitmap[..], currentIndex + 1 - blocks, blocks)
      ensures !found ==> blocks == 0 || forall r :: !FreeRun(memoryBitmap[..], r, blocks)
    {
      var freeBlocksFound := 0;
      currentIndex := 0;
      while currentIndex < memoryBitmap.Length
        invariant 0 <= freeBlocksFound <= currentIndex <= memoryBitmap.Length
        invariant forall i | currentIndex - freeBlocksFound <= i < currentIndex :: memoryBitmap[i] == FREE
        invariant freeBlocksFound < currentIndex ==> memoryBitmap[currentIndex - freeBlocksFound - 1] != FREE
        invariant 0 < blocks ==> freeBlocksFound < blocks
        invariant 0 < blocks ==> forall r | r + blocks <= currentIndex :: !FreeRun(memoryBitmap[..], r, blocks)
      {
        match memoryBitmap[currentIndex] {
          case BORDER => freeBlocksFound := 0;
          case USED => freeBlocksFound := 0;
          case OTHER => freeBlocksFound := 0;
          case FREE =>
            freeBlocksFound := freeBlocksFound + 1;
            if freeBlocksFound == blocks {
              return true, currentIndex;
            }
        }
        if 0 < blocks { RunEndsHere(memoryBitmap[..], currentIndex, freeBlocksFound, blocks); }
        currentIndex := currentIndex + 1;
      }
      found := false;
    }

    /** Marks the run that ends at currentIndex. */
    method MarkBlock(last: nat, blocks: nat) returns (ptr: int, ghost at: int)
      requires Ready() && 0 < blocks <= last + 1 <= memoryBitmap.Length
      requires FirstRun(memoryBitmap[..], last + 1 - blocks, blocks)
      modifies this`live, memoryBitmap
      ensures Ready() && at == last + 1 - blocks && ptr == Address(at) && at in live
      ensures MallocStep(old(Now()), Now(), blocks, at)
    {
      ghost var l := Now();
      at := last + 1 - blocks;
      var currentIndex := last - (blocks - 1);
      while currentIndex < last
        invariant at <= currentIndex <= last
        invariant forall i | 0 <= i < memoryBitmap.Length ::
          memoryBitmap[i] == if at <= i < currentIndex then USED else l.cells[i]
        modifies memoryBitmap
      {
        memoryBitmap[currentIndex] := USED;
        currentIndex := currentIndex + 1;
      }
      memoryBitmap[currentIndex] := BORDER;
      currentIndex := currentIndex - (blocks - 1);
      ptr := heapOffset + currentIndex * HEAP_BLK_SIZE;
      live := live[at := blocks];
      AllocatedIsValid(l, Now(), at, blocks);
    }

    /** The allocation itself. */
    method Allocate(size: nat) returns (ptr: int, ghost at: int)
      requires Ready() && size < TWO_64
      modifies this`live, memoryBitmap
      ensures Ready() && MallocStep(old(Now()), Now(), Blocks(size), at)
      ensures ptr == Address(at) && -1 <= at
      ensures at in live <==> 0 < size && exists r :: FreeRun(old(memoryBitmap[..]), r, Blocks(size))
    {
      at := -1;
      if size == 0 {
        return 0, at;
      }
      var blocks := CountBlocks(size);
      var found, currentIndex := FindRun(blocks);
      if !found {
        return 0, at;
      }
      ptr, at := MarkBlock(currentIndex, blocks);
    }

    /** Gives the lowest bytes that are free, from the start of a block on, or NULL when there are
        none or the size is 0. No other request has a byte of them. */
    method Kmalloc(size: nat) returns (ptr: int, ghost at: int)
      requires Ready() && Recorded() && size < TWO_64
      modifies this, memoryBitmap
      ensures Ready() && MallocStep(old(Now()), Now(), Blocks(size), at)
      ensures Recorded() && calls == old(calls) + [Malloc(Blocks(size), at)] && trace == old(trace) + [Now()]
      ensures ptr == if at < 0 then 0 else heapOffset + at * 256
      ensures 0 <= at <==> 0 < size && exists first :: BytesFree(old(memoryBitmap[..]), first, size)
      ensures at < 0 ==> Now() == old(Now()) && requests == old(requests)
      ensures 0 <= at ==>
        && BytesFree(old(memoryBitmap[..]), at, size)
        && (forall first | first < at :: !BytesFree(old(memoryBitmap[..]), first, size))
        && BytesApart(old(requests), at, size) && BytesMarked(old(memoryBitmap[..]), memoryBitmap[..], at, size)
        && requests == old(requests)[at := size]
    {
      ghost var l := Now();
      ptr, at := Allocate(size);
      if 0 <= at {
        AllocatedTells(l, Now(), at, size);
        AllocatedIsBooked(l, Now(), requests, at, size);
        requests := requests[at := size];
      } else if 0 < size {
        NoRunNoBytes(l.cells, size);
      }
      Record(l, Malloc(Blocks(size), at));
    }

    /** The freeing loop, and the BORDER behind it when a free cell follows. */
    method ClearFrom(s: nat)
      requires s <= memoryBitmap.Length
      modifies memoryBitmap
      ensures memoryBitmap[..] == Cleared(old(memoryBitmap[..]), s)
    {
      ghost var cells := memoryBitmap[..];
      var bitmapIndex := s;
      while bitmapIndex < memoryBitmap.Length
        && memoryBitmap[bitmapIndex] != BORDER && memoryBitmap[bitmapIndex] == USED
        invariant s <= bitmapIndex <= memoryBitmap.Length && UsedEnd(cells, bitmapIndex) == UsedEnd(cells, s)
        invariant forall i | 0 <= i < memoryBitmap.Length ::
          memoryBitmap[i] == if s <= i < bitmapIndex then FREE else cells[i]
        decreases memoryBitmap.Length - bitmapIndex
      {
        memoryBitmap[bitmapIndex] := FREE;
        bitmapIndex := bitmapIndex + 1;
      }
      if bitmapIndex < memoryBitmap.Length && memoryBitmap[bitmapIndex] == BORDER
        && bitmapIndex + 1 < memoryBitmap.Length && memoryBitmap[bitmapIndex + 1] == FREE
      {
        memoryBitmap[bitmapIndex] := FREE;
      }
    }

    /** Frees the allocation that starts at a cell with a BORDER in front of it. */
    method FreeBehind(s: nat)
      requires Ready() && 1 <= s <= memoryBitmap.Length && memoryBitmap[s - 1] == BORDER && Booked(live, requests)
      modifies this`live, this`requests, memoryBitmap
      ensures Ready() && FreeStep(old(Now()), Now(), s) && Booked(live, requests)
      ensures requests == old(requests) - {s}
      ensures s in old(requests) ==> BytesFreed(old(memoryBitmap[..]), memoryBitmap[..], s, old(requests)[s])
    {
      ghost var l := Now();
      ClearFrom(s);
      ClearedBehind(l, Layout(memoryBitmap[..], live - {s}), requests, s);
      live, requests := live - {s}, requests - {s};
    }

    /** Frees block s if it has a BORDER in front of it. */
    method FreeBlock(s: nat)
      requires Ready() && Recorded() && 1 <= s <= memoryBitmap.Length
      modifies this, memoryBitmap
      ensures Ready() && FreeStep(old(Now()), Now(), s) && requests == old(requests) - {s}
      ensures s in old(requests) ==> BytesFreed(old(memoryBitmap[..]), memoryBitmap[..], s, old(requests)[s])
      ensures Recorded() && calls == old(calls) + [Free(s)] && trace == old(trace) + [Now()]
    {
      ghost var l := Now();
      if memoryBitmap[s - 1] == BORDER {
        FreeBehind(s);
      } else {
        assert s in live ==> IsBlock(l.cells, s, live[s]);
      }
      Record(l, Free(s));
    }

    /** The address of block 0 is taken for a block behind a border, and cell 0 is freed. */
    ghost predicate LosesFirst(l: Layout, borderInFront: bool) {
      borderInFront && 1 < |l.cells| && l.cells[1] == FREE
    }

    ghost function FirstLost(l: Layout): Layout {
      if l.cells == [] then l else l.(cells := l.cells[0 := FREE])
    }

    predicate Begins(at: int, ptr: int) {
      0 <= at <= HEAP_BLK_COUNT && ptr == heapOffset + at * 256
    }

    /** The number of the block at an address, if one begins there, or the heap ends. */
    method BlockIndex(ptr: nat) returns (ok: bool, bitmapIndex: nat)
      requires 0 < heapOffset && heapOffset + HEAP_BLK_COUNT * HEAP_BLK_SIZE < TWO_64 && ptr < TWO_64
      ensures ok ==> Begins(bitmapIndex, ptr)
      ensures !ok ==> forall at :: !Begins(at, ptr)
    {
      bitmapIndex := (ptr - heapOffset) % TWO_64;
      if bitmapIndex % HEAP_BLK_SIZE != 0 || ptr > heapOffset + HEAP_BLK_COUNT * HEAP_BLK_SIZE || ptr < heapOffset {
        return false, bitmapIndex;
      }
      return true, bitmapIndex / HEAP_BLK_SIZE;
    }

    /** Frees the block at ptr. Any address may be passed. For that of block 0 the code looks
        in front of the array, where there may be a byte that reads as a BORDER. */
    method Kfree(ptr: nat, borderInFront: bool)
      requires Ready() && Recorded() && ptr < TWO_64
      modifies this, memoryBitmap
      ensures forall at | 0 < at && Begins(at, ptr) ::
        && Ready() && Recorded() && FreeStep(old(Now()), Now(), at)
        && calls == old(calls) + [Free(at)] && trace == old(trace) + [Now()]
        && requests == old(requests) - {at}
        && (at in old(requests) ==> BytesFreed(old(memoryBitmap[..]), memoryBitmap[..], at, old(requests)[at]))
      ensures (forall at :: !Begins(at, ptr)) ==> Now() == old(Now()) && requests == old(requests)
      ensures ptr == heapOffset ==>
        && Now() == (if LosesFirst(old(Now()), borderInFront) then FirstLost(old(Now())) else old(Now()))
        && requests == old(requests)
      ensures Ready() <==> !(ptr == heapOffset && LosesFirst(old(Now()), borderInFront))
      ensures Ready() ==> Recorded()
    {
      assert Begins(0, heapOffset);
      if ptr == 0 {
        return;
      }
      var ok, bitmapIndex := BlockIndex(ptr);
      if !ok {
        return;
      }
      if bitmapIndex != 0 {
        FreeBlock(bitmapIndex);
      } else if borderInFront {
        ClearFrom(0);
      }
    }

    /** The bytes of the USED cells from s on. */
    method UsedBytes(s: nat) returns (bytes: nat)
      requires s <= memoryBitmap.Length
      ensures bytes == (UsedEnd(memoryBitmap[..], s) - s) * 256
    {
      bytes := 0;
      var index := s;
      while index < memoryBitmap.Length && memoryBitmap[index] != BORDER && memoryBitmap[index] == USED
        invariant s <= index <= memoryBitmap.Length && UsedEnd(memoryBitmap[..], index) == UsedEnd(memoryBitmap[..], s)
        invariant bytes == (index - s) * 256
        decreases memoryBitmap.Length - index
      {
        bytes := bytes + HEAP_BLK_SIZE;
        index := index + 1;
      }
    }

    /** Bytes in whole blocks, in 64-bit arithmetic. */
    method RoundUp(size: nat) returns (rounded: nat)
      requires size < TWO_64
      ensures rounded == Blocks(size) * 256 % TWO_64
    {
      var remainder := size % HEAP_BLK_SIZE;
      rounded := size - remainder;
      if remainder != 0 {
        rounded := (rounded + HEAP_BLK_SIZE) % TWO_64;
      }
    }

    /** Moves the request at block b to a new block for so many bytes, if there is one. */
    method Move(oldPtr: nat, oldSize: nat, rounded: nat, ghost b: int) returns (ptr: int, copied: nat, ghost at: int)
      requires Ready() && Recorded() && 0 < rounded < TWO_64 && oldPtr < TWO_64 && b in requests && Begins(b, oldPtr)
      modifies this, memoryBitmap
      ensures Ready() && Recorded()
      ensures ptr == 0 ==>
        && Now() == old(Now()) && requests == old(requests)
        && forall first :: !BytesFree(old(memoryBitmap[..]), first, rounded)
      ensures ptr != 0 ==>
        && ptr == heapOffset + at * 256 && at !in old(requests) && copied == oldSize
        && requests == old(requests)[at := rounded] - {b}
    {
      copied := 0;
      ptr, at := Kmalloc(rounded);
      if ptr != 0 {
        copied := oldSize;
        Kfree(oldPtr, false);
      }
    }

    /** Makes room for size bytes of the request at block b. Its BORDER cell is not taken for a part
        of it. So when the request has to move, the bytes in its last block are not copied, and
        some that were asked for are in that block. */
    method Krealloc(oldPtr: nat, size: nat, ghost b: int) returns (ptr: int, copied: nat, ghost at: int)
      requires Ready() && Recorded() && size < TWO_64 && oldPtr < TWO_64
      requires oldPtr != 0 ==> b in requests && Begins(b, oldPtr)
      modifies this, memoryBitmap
      ensures Ready() && Recorded()
      ensures oldPtr == 0 ==>
        && MallocStep(old(Now()), Now(), Blocks(size), at) && ptr == (if at < 0 then 0 else heapOffset + at * 256)
        && copied == 0
      ensures oldPtr != 0 ==>
        var rounded, room := Blocks(size) * 256 % TWO_64, (old(live)[b] - 1) * 256;
        if rounded <= room then ptr == oldPtr && Now() == old(Now()) && requests == old(requests)
        else if ptr == 0 then
          && Now() == old(Now()) && requests == old(requests)
          && forall first :: !BytesFree(old(memoryBitmap[..]), first, rounded)
        else
          && ptr == heapOffset + at * 256 && at !in old(requests)
          && requests == old(requests)[at := rounded] - {b}
          && copied == room < old(requests)[b]
    {
      copied := 0;
      if oldPtr == 0 {
        ptr, at := Kmalloc(size);
        return;
      }
      var oldSize := UsedBytes((oldPtr - heapOffset) / HEAP_BLK_SIZE);
      LiveEnd(Now(), b);
      var rounded := RoundUp(size);
      at := b;
      if rounded <= oldSize {
        return oldPtr, 0, b;
      }
      ptr, copied, at := Move(oldPtr, oldSize, rounded, b);
    }
  }
}
