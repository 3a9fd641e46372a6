/** The page-frame allocator: a doubly linked list of memory segments, split on allocation
    and combined when they are freed. */
module PageAllocator {
  import opened Machine

  const PAGE: int := 0x1000

  /** The two kinds of usable memory, as numbered in the memory map. */
  const FREE: int := 0x0
  const USED: int := 0xA

  datatype Segment = Segment(start: int, size: int, kind: int) {
    function End(): int {
      start + size * PAGE
    }

    predicate Contains(x: int) {
      start <= x < End()
    }

    predicate Usable() {
      kind == FREE || kind == USED
    }
  }

  /** The list as a value. */
  type Segments = seq<Segment>

  // ----- What the list means -----

  /** No address lies in two segments. */
  ghost predicate Separate(segs: Segments) {
    forall i, j, x | 0 <= i < j < |segs| :: !(segs[i].Contains(x) && segs[j].Contains(x))
  }

  ghost predicate Touched(segs: Segments, x: int) {
    exists i | 0 <= i < |segs| :: segs[i].Contains(x)
  }

  ghost predicate Sizes(segs: Segments) {
    forall i | 0 <= i < |segs| :: 0 <= segs[i].size
  }

  /** x lies in a free or used segment. */
  ghost predicate Usable(segs: Segments, x: int) {
    exists i | 0 <= i < |segs| :: segs[i].Contains(x) && segs[i].Usable()
  }

  ghost predicate InUse(segs: Segments, x: int) {
    exists i | 0 <= i < |segs| :: segs[i].Contains(x) && segs[i].kind == USED
  }

  /** after partitions the usable addresses of before, and the other segments are apart too. */
  ghost predicate Partitions(before: Segments, after: Segments) {
    Separate(after) && forall x :: Usable(after, x) <==> Usable(before, x)
  }

  ghost function UsablePages(segs: Segments): int {
    if segs == [] then 0
    else UsablePages(segs[..|segs| - 1]) + if segs[|segs| - 1].Usable() then segs[|segs| - 1].size else 0
  }

  // ----- Lists in parts -----

  lemma ConcatMembers(a: Segments, b: Segments, x: int)
    ensures Touched(a + b, x) <==> Touched(a, x) || Touched(b, x)
    ensures Usable(a + b, x) <==> Usable(a, x) || Usable(b, x)
    ensures InUse(a + b, x) <==> InUse(a, x) || InUse(b, x)
  {
    var c := a + b;
    assert forall i | 0 <= i < |a| :: c[i] == a[i];
    assert forall i | 0 <= i < |b| :: c[|a| + i] == b[i];
  }

  ghost predicate Clear(a: Segments, b: Segments) {
    forall x :: !(Touched(a, x) && Touched(b, x))
  }

  lemma ConcatSeparate(a: Segments, b: Segments)
    ensures Separate(a + b) <==> Separate(a) && Separate(b) && Clear(a, b)
  {
    var c := a + b;
    assert forall i | 0 <= i < |a| :: c[i] == a[i];
    assert forall i | 0 <= i < |b| :: c[|a| + i] == b[i];
    if Separate(c) {
      forall i, j, x | 0 <= i < |a| && 0 <= j < |b| ensures !(a[i].Contains(x) && b[j].Contains(x)) {
        assert !(c[i].Contains(x) && c[|a| + j].Contains(x));
      }
      forall i, j, x | 0 <= i < j < |b| ensures !(b[i].Contains(x) && b[j].Contains(x)) {
        assert !(c[|a| + i].Contains(x) && c[|a| + j].Contains(x));
      }
    }
    if Separate(a) && Separate(b) && Clear(a, b) {
      forall i, j, x | 0 <= i < j < |c| ensures !(c[i].Contains(x) && c[j].Contains(x)) {
        if |a| <= i {
          assert c[i] == b[i - |a|] && c[j] == b[j - |a|];
        } else if |a| <= j {
          assert c[i] == a[i] && c[j] == b[j - |a|];
          assert !(Touched(a, x) && Touched(b, x));
        }
      }
    }
  }

  /** Replacing a part of the list by another that touches the same addresses. */
  lemma SwapPart(pre: Segments, old_: Segments, new_: Segments, post: Segments)
    requires Separate(pre + old_ + post) && Separate(new_)
    requires forall x :: Touched(new_, x) <==> Touched(old_, x)
    requires forall x :: Usable(new_, x) <==> Usable(old_, x)
    ensures Partitions(pre + old_ + post, pre + new_ + post)
  {
    ConcatSeparate(pre + old_, post);
    ConcatSeparate(pre, old_);
    assert Clear(pre, new_);
    forall x
      ensures !(Touched(pre + new_, x) && Touched(post, x))
      ensures Usable(pre + new_ + post, x) <==> Usable(pre + old_ + post, x)
    {
      ConcatMembers(pre, old_, x);
      ConcatMembers(pre, new_, x);
      ConcatMembers(pre + old_, post, x);
      ConcatMembers(pre + new_, post, x);
    }
    ConcatSeparate(pre, new_);
    ConcatSeparate(pre + new_, post);
  }

  lemma SwapPartInUse(pre: Segments, old_: Segments, new_: Segments, post: Segments, x: int)
    requires !InUse(old_, x)
    ensures InUse(pre + new_ + post, x) <==> InUse(pre + old_ + post, x) || InUse(new_, x)
  {
    ConcatMembers(pre, old_, x);
    ConcatMembers(pre, new_, x);
    ConcatMembers(pre + old_, post, x);
    ConcatMembers(pre + new_, post, x);
  }

  lemma {:induction false} UsablePagesConcat(a: Segments, b: Segments)
    ensures UsablePages(a + b) == UsablePages(a) + UsablePages(b)
  {
    if b == [] {
      assert a + b == a;
    } else {
      UsablePagesConcat(a, b[..|b| - 1]);
      assert (a + b)[..|a + b| - 1] == a + b[..|b| - 1];
    }
  }

  /** What the firmware's memory map says about one region. */
  datatype Region = Region(base: nat, length: nat, kind: int)

  ghost function Mapped(regions: seq<Region>): Segments {
    seq(|regions|, i requires 0 <= i < |regions| => Segment(regions[i].base, regions[i].length / PAGE, regions[i].kind))
  }

  /** The list that the loop over the memory map makes: an empty entry ends it. */
  ghost function StartList(regions: seq<Region>): Segments {
    Mapped(regions) + [Segment(0, 0, FREE)]
  }

  /** x lies in a segment of a kind. */
  ghost predicate Holds(segs: Segments, x: int, kind: int) {
    exists i | 0 <= i < |segs| :: segs[i].start <= x < segs[i].start + segs[i].size * 0x1000 && segs[i].kind == kind
  }

  /** x lies in the whole pages of a region. */
  predicate HasPage(region: Region, x: int) {
    region.base <= x < region.base + region.length / 0x1000 * 0x1000
  }

  /** x lies in the whole pages of a region of a kind. */
  ghost predicate MapSays(regions: seq<Region>, x: int, kind: int) {
    exists i | 0 <= i < |regions| :: HasPage(regions[i], x) && regions[i].kind == kind
  }

  /** No address is in the whole pages of two regions. */
  ghost predicate RegionsApart(regions: seq<Region>) {
    forall i, j, x | 0 <= i < j < |regions| :: !(HasPage(regions[i], x) && HasPage(regions[j], x))
  }

  /** The list starts with just what the memory map says, kind by kind. */
  lemma StartsAsMapped(regions: seq<Region>, x: int, kind: int)
    ensures Holds(StartList(regions), x, kind) <==> MapSays(regions, x, kind)
  {
    var segs := StartList(regions);
    forall i | 0 <= i < |regions|
      ensures segs[i].kind == regions[i].kind
      ensures segs[i].start <= x < segs[i].start + segs[i].size * 0x1000 <==> HasPage(regions[i], x)
    {
    }
    if MapSays(regions, x, kind) {
      var i :| 0 <= i < |regions| && HasPage(regions[i], x) && regions[i].kind == kind;
      assert segs[i].start <= x < segs[i].start + segs[i].size * 0x1000 && segs[i].kind == kind;
    }
  }

  lemma StartIsSeparate(regions: seq<Region>)
    ensures Sizes(StartList(regions)) && (Separate(StartList(regions)) <==> RegionsApart(regions))
  {
    var segs := StartList(regions);
    forall i, x | 0 <= i < |regions| ensures segs[i].Contains(x) <==> HasPage(regions[i], x) {}
    if RegionsApart(regions) {
      forall i, j, x | 0 <= i < j < |segs| ensures !(segs[i].Contains(x) && segs[j].Contains(x)) {
        assert j < |regions| ==> !(HasPage(regions[i], x) && HasPage(regions[j], x));
      }
    }
    if Separate(segs) {
      forall i, j, x | 0 <= i < j < |regions| ensures !(HasPage(regions[i], x) && HasPage(regions[j], x)) {
        assert !(segs[i].Contains(x) && segs[j].Contains(x));
      }
    }
  }

  /** Usable is what is free or in use. */
  lemma UsableIsHeld(segs: Segments, x: int)
    ensures Usable(segs, x) <==> Holds(segs, x, 0) || Holds(segs, x, 0xA)
    ensures InUse(segs, x) <==> Holds(segs, x, 0xA)
  {
  }

  // ----- Allocation -----

  /** i is the lowest free segment with room for n pages, or |segs| when there is none. */
  ghost predicate FirstFit(segs: Segments, n: nat, i: int) {
    && 0 <= i <= |segs|
    && (i < |segs| ==> segs[i].kind == FREE && n <= segs[i].size)
    && forall j | 0 <= j < i :: segs[j].kind != FREE || segs[j].size < n
  }

  /** Where the n pages taken from segment s start. */
  function TakenFrom(s: Segment, n: nat): int {
    s.start + (s.size - n) * PAGE
  }

  /** What taking n pages from the end of the free segment s leaves. */
  function Split(s: Segment, n: nat): Segments {
    if s.size == n then [s.(kind := USED)]
    else [s.(size := s.size - n), Segment(TakenFrom(s, n), n, USED)]
  }

  predicate InRange(x: int, start: int, n: nat) {
    start <= x < start + n * PAGE
  }

  /** What an allocation of n pages from segment i makes of the list when it needs no new entry
      or gets a new one. */
  ghost function Taken(segs: Segments, n: nat, i: int): Segments
    requires 0 <= i <= |segs|
  {
    if i == |segs| then segs else segs[..i] + Split(segs[i], n) + segs[i + 1..]
  }

  /** What a walk along the links meets: segments up to an end, or no end. */
  datatype Listing = Ends(segs: Segments) | Endless

  /** A new entry is needed for the n pages. */
  predicate Splits(segs: Segments, n: nat, i: int) {
    0 <= i < |segs| && segs[i].size != n
  }

  /** What becomes of the list when the new entry for the pages of segment i is the entry j that
      is still in it. In front of that entry, or at it, the links run in a circle; behind it,
      what is between the two is cut off. */
  ghost function Relisted(segs: Segments, n: nat, i: int, j: int): Listing
    requires 0 <= i < |segs| && 0 <= j < |segs|
  {
    if i <= j then Endless else Ends(segs[..j] + [Segment(TakenFrom(segs[i], n), n, USED)] + segs[i + 1..])
  }

  /** An allocation of n pages. kcalloc hands out a new entry, or entry j of the list, which was
      released before; j is -1 for a new one. */
  ghost predicate AllocateStep(segs: Segments, after: Listing, n: nat, i: int, j: int) {
    && FirstFit(segs, n, i) && -1 <= j < |segs| && j != 0
    && after == if Splits(segs, n, i) && 0 < j then Relisted(segs, n, i, j) else Ends(Taken(segs, n, i))
  }

  lemma SplitMembers(s: Segment, n: nat, x: int)
    requires s.kind == FREE && n <= s.size
    ensures Touched(Split(s, n), x) <==> Touched([s], x)
    ensures Usable(Split(s, n), x) <==> Usable([s], x)
    ensures InUse(Split(s, n), x) <==> InRange(x, TakenFrom(s, n), n)
    ensures InRange(x, TakenFrom(s, n), n) ==> s.Contains(x)
    ensures !InUse([s], x)
  {
    var parts := Split(s, n);
    var taken := parts[|parts| - 1];
    assert taken.Contains(x) <==> InRange(x, TakenFrom(s, n), n);
    assert |parts| == 2 ==> (parts[0].Contains(x) <==> s.start <= x < TakenFrom(s, n));
    assert [s][0] == s;
  }

  lemma {:induction false} SwapPages(pre: Segments, old_: Segments, new_: Segments, post: Segments)
    ensures UsablePages(pre + new_ + post) - UsablePages(pre + old_ + post) == UsablePages(new_) - UsablePages(old_)
  {
    UsablePagesConcat(pre + old_, post);
    UsablePagesConcat(pre + new_, post);
    UsablePagesConcat(pre, old_);
    UsablePagesConcat(pre, new_);
  }

  lemma {:induction false} SplitPages(s: Segment, n: nat)
    requires s.kind == FREE && n <= s.size
    ensures UsablePages(Split(s, n)) == UsablePages([s])
  {
    var parts := Split(s, n);
    assert |parts| == 2 ==> parts[..1] == [parts[0]] && parts[..1][..0] == [];
    assert [s][..0] == [];
  }

  /** Allocating keeps the partition and the number of usable pages; exactly the new range
      comes into use, and no address of it was in use before. */
  lemma {:induction false} AllocateKeepsPartition(segs: Segments, after: Segments, n: nat, i: int)
    requires Separate(segs) && FirstFit(segs, n, i) && i < |segs| && after == Taken(segs, n, i)
    ensures Partitions(segs, after) && UsablePages(after) == UsablePages(segs)
    ensures forall x :: InUse(after, x) <==> InUse(segs, x) || InRange(x, TakenFrom(segs[i], n), n)
    ensures forall x | InRange(x, TakenFrom(segs[i], n), n) :: !InUse(segs, x) && segs[i].Contains(x)
  {
    var pre, s, post := segs[..i], segs[i], segs[i + 1..];
    var parts := Split(s, n);
    assert segs == pre + [s] + post;
    forall x
      ensures Touched(parts, x) <==> Touched([s], x)
      ensures Usable(parts, x) <==> Usable([s], x)
      ensures InUse(after, x) <==> InUse(segs, x) || InRange(x, TakenFrom(s, n), n)
      ensures InRange(x, TakenFrom(s, n), n) ==> !InUse(segs, x) && s.Contains(x)
    {
      SplitMembers(s, n, x);
      SwapPartInUse(pre, [s], parts, post, x);
    }
    SwapPart(pre, [s], parts, post);
    SwapPages(pre, [s], parts, post);
    SplitPages(s, n);
  }

  // ----- Freeing -----

  /** How the list is kept. Repaired: a split corrects the old successor's back link and a
      combined segment leaves the list. AsWritten: neither happens. */
  datatype Upkeep = Repaired | AsWritten

  /** The used segment i becomes free. */
  ghost function Released(segs: Segments, i: int): Segments
    requires 0 <= i < |segs|
  {
    segs[i := segs[i].(kind := FREE)]
  }

  /** Segment i is combined into the one before it. */
  ghost function Combined(segs: Segments, i: int, upkeep: Upkeep): Segments
    requires 0 < i < |segs|
  {
    segs[..i - 1] + [segs[i - 1].(size := segs[i - 1].size + segs[i].size)]
      + (if upkeep == Repaired then [] else [segs[i]]) + segs[i + 1..]
  }

  /** The first segment that starts at an address, or |segs|. */
  ghost predicate FirstAt(segs: Segments, start: int, i: int) {
    && 0 <= i <= |segs|
    && (i < |segs| ==> segs[i].start == start)
    && forall j | 0 <= j < i :: segs[j].start != start
  }

  lemma ReleasedMembers(segs: Segments, i: int, x: int)
    requires Separate(segs) && 0 <= i < |segs| && segs[i].kind == USED
    ensures var after := Released(segs, i);
      && (Touched([after[i]], x) <==> Touched([segs[i]], x))
      && (Usable([after[i]], x) <==> Usable([segs[i]], x))
      && (InUse(after, x) <==> InUse(segs, x) && !segs[i].Contains(x))
  {
    var after := Released(segs, i);
    assert [segs[i]][0].Contains(x) <==> [after[i]][0].Contains(x);
    assert forall j | 0 <= j < |segs| && j != i :: after[j] == segs[j];
  }

  lemma {:induction false} ReleaseKeepsPartition(segs: Segments, i: int)
    requires Separate(segs) && 0 <= i < |segs| && segs[i].kind == USED
    ensures Partitions(segs, Released(segs, i)) && UsablePages(Released(segs, i)) == UsablePages(segs)
    ensures forall x :: InUse(Released(segs, i), x) <==> InUse(segs, x) && !segs[i].Contains(x)
  {
    var pre, post, after := segs[..i], segs[i + 1..], Released(segs, i);
    assert segs == pre + [segs[i]] + post && after == pre + [after[i]] + post;
    forall x
      ensures Touched([after[i]], x) <==> Touched([segs[i]], x)
      ensures Usable([after[i]], x) <==> Usable([segs[i]], x)
      ensures InUse(after, x) <==> InUse(segs, x) && !segs[i].Contains(x)
    {
      ReleasedMembers(segs, i, x);
    }
    SwapPart(pre, [segs[i]], [after[i]], post);
    SwapPages(pre, [segs[i]], [after[i]], post);
    assert [segs[i]][..0] == [] && [after[i]][..0] == [];
  }

  // ----- Combining -----

  /** What stands in the place of segments b and a once a is combined into b. */
  function Pair(b: Segment, a: Segment, upkeep: Upkeep): Segments {
    [b.(size := b.size + a.size)] + if upkeep == Repaired then [] else [a]
  }

  lemma CombinedInParts(segs: Segments, i: int, upkeep: Upkeep)
    requires 0 < i < |segs|
    ensures var pre, post := segs[..i - 1], segs[i + 1..];
      && segs == pre + [segs[i - 1], segs[i]] + post
      && Combined(segs, i, upkeep) == pre + Pair(segs[i - 1], segs[i], upkeep) + post
  {
  }

  lemma MeetingPair(b: Segment, a: Segment, upkeep: Upkeep, x: int)
    requires b.kind == a.kind == FREE && 0 <= a.size && 0 <= b.size
    requires a.size == 0 || (upkeep == Repaired && b.End() == a.start)
    ensures Touched(Pair(b, a, upkeep), x) <==> Touched([b, a], x)
    ensures Usable(Pair(b, a, upkeep), x) <==> Usable([b, a], x)
  {
    var m := b.(size := b.size + a.size);
    assert m.End() == b.End() + a.size * PAGE;
    assert Pair(b, a, upkeep)[0] == m && [b, a][0] == b && [b, a][1] == a;
    assert m.Contains(x) <==> b.Contains(x) || (a.size != 0 && a.Contains(x));
  }

  lemma LostAddress(segs: Segments, i: int)
    requires Separate(segs) && Sizes(segs) && 0 < i < |segs| && segs[i - 1].kind == segs[i].kind == FREE
    requires segs[i].size > 0 && segs[i].start < segs[i - 1].End()
    ensures !Partitions(segs, Combined(segs, i, Repaired))
  {
    var b, a, after := segs[i - 1], segs[i], Combined(segs, i, Repaired);
    assert a.Contains(a.start) && Usable(segs, a.start) && !b.Contains(a.start);
    forall k | 0 <= k < |after| ensures !after[k].Contains(a.start) {
      assert k < i - 1 ==> after[k] == segs[k];
      assert k >= i ==> after[k] == segs[k + 1];
    }
  }

  lemma TakenAddress(segs: Segments, i: int, upkeep: Upkeep)
    requires Separate(segs) && Sizes(segs) && 0 < i < |segs| && segs[i - 1].kind == segs[i].kind == FREE
    requires segs[i].size > 0 && !segs[i].Contains(segs[i - 1].End())
    ensures !Partitions(segs, Combined(segs, i, upkeep))
  {
    var b, a, after, x := segs[i - 1], segs[i], Combined(segs, i, upkeep), segs[i - 1].End();
    var m := after[i - 1];
    assert m == b.(size := b.size + a.size) && m.Contains(x) && m.Usable();
    assert Usable(after, x);
    if k :| 0 <= k < |segs| && segs[k].Contains(x) && segs[k].Usable() {
      assert k != i - 1 && k != i;
      var k' := if k < i then k else if upkeep == Repaired then k - 1 else k;
      assert after[k'] == segs[k] && k' != i - 1;
    }
  }

  lemma CombineBreaksPartition(segs: Segments, i: int, upkeep: Upkeep)
    requires Separate(segs) && Sizes(segs) && 0 < i < |segs| && segs[i - 1].kind == segs[i].kind == FREE
    requires segs[i].size > 0 && (upkeep == AsWritten || segs[i - 1].End() != segs[i].start)
    ensures !Partitions(segs, Combined(segs, i, upkeep))
  {
    var b, a, after := segs[i - 1], segs[i], Combined(segs, i, upkeep);
    var m := after[i - 1];
    assert m == b.(size := b.size + a.size) && m.End() == b.End() + a.size * PAGE;
    assert m.Contains(b.End());
    if !a.Contains(b.End()) {
      // the first address behind b is taken, although it was not b's or a's
      TakenAddress(segs, i, upkeep);
    } else if upkeep == AsWritten {
      // the combined segment is still in the list: the address lies in two segments
      assert after[i] == a;
    } else {
      // the combined segment's first address is lost
      LostAddress(segs, i);
    }
  }

  /** Combining keeps the partition exactly when the combined segment leaves the list and
      starts where the one before it ends, or when it is empty. */
  lemma CombineKeepsPartition(segs: Segments, i: int, upkeep: Upkeep)
    requires Separate(segs) && Sizes(segs) && 0 < i < |segs| && segs[i - 1].kind == segs[i].kind == FREE
    ensures Partitions(segs, Combined(segs, i, upkeep)) <==>
      segs[i].size == 0 || (upkeep == Repaired && segs[i - 1].End() == segs[i].start)
  {
    var pre, b, a, post := segs[..i - 1], segs[i - 1], segs[i], segs[i + 1..];
    var m := b.(size := b.size + a.size);
    CombinedInParts(segs, i, upkeep);
    if a.size == 0 || (upkeep == Repaired && b.End() == a.start) {
      forall x
        ensures Touched(Pair(b, a, upkeep), x) <==> Touched([b, a], x)
        ensures Usable(Pair(b, a, upkeep), x) <==> Usable([b, a], x)
      {
        MeetingPair(b, a, upkeep, x);
      }
      SwapPart(pre, [b, a], Pair(b, a, upkeep), post);
    } else {
      CombineBreaksPartition(segs, i, upkeep);
    }
  }

  // ----- Steps and runs -----

  /** Freeing the first segment at an address. A segment that is not in use is left alone. The
      released segment is combined into a free one before it; as the code is written this
      also needs that segment's link back to be up to date. */
  ghost predicate FreeStep(segs: Segments, after: Segments, start: int, i: int, combined: bool, upkeep: Upkeep) {
    && FirstAt(segs, start, i)
    && (combined ==> 0 < i < |segs| && segs[i].kind == USED && segs[i - 1].kind == FREE)
    && (upkeep == Repaired && 0 < i < |segs| && segs[i].kind == USED && segs[i - 1].kind == FREE ==> combined)
    && after == (if i == |segs| || segs[i].kind != USED then segs
                 else if combined then Combined(Released(segs, i), i, upkeep) else Released(segs, i))
  }

  /** An entry that is used again while it is in the list costs memory, if only what is left of
      the segment that was split. */
  lemma RelistingLosesMemory(segs: Segments, n: nat, i: int, j: int)
    requires Separate(segs) && FirstFit(segs, n, i) && Splits(segs, n, i) && 0 < j < i
    ensures !Partitions(segs, Relisted(segs, n, i, j).segs)
  {
    var after, x := Relisted(segs, n, i, j).segs, segs[i].start;
    assert segs[i].Contains(x) && Usable(segs, x);
    forall k | 0 <= k < |after| ensures !after[k].Contains(x) {
      assert k < j ==> after[k] == segs[k];
      assert k > j ==> after[k] == segs[i + k - j];
    }
  }

  datatype Call =
    | Allocate(n: nat, i: int, j: int)
    | Free(start: int, i: int, combined: bool)

  /** In a repaired list no released entry remains. */
  ghost predicate Step(segs: Segments, call: Call, after: Listing, upkeep: Upkeep) {
    match call
    case Allocate(n, i, j) => AllocateStep(segs, after, n, i, j) && (upkeep == Repaired ==> j == -1)
    case Free(start, i, combined) => after.Ends? && FreeStep(segs, after.segs, start, i, combined, upkeep)
  }

  /** An allocation does not use an entry again that is still in the list. A release combines no
      segments, or an empty one, or one that leaves the list and starts where the one in front
      of it ends. */
  ghost predicate Safe(segs: Segments, call: Call, upkeep: Upkeep) {
    match call
    case Allocate(n, i, j) => !(Splits(segs, n, i) && 0 < j)
    case Free(_, i, combined) =>
      combined && 0 < i < |segs| ==>
        segs[i].size == 0 || (upkeep == Repaired && segs[i - 1].End() == segs[i].start)
  }

  /** The list is whole: it ends, and partitions the memory of an earlier one. */
  ghost predicate Whole(before: Segments, l: Listing) {
    l.Ends? && Partitions(before, l.segs)
  }

  /** Any number of calls, whether they are safe or not, as long as the list ends. */
  ghost predicate Run(trace: seq<Listing>, calls: seq<Call>, upkeep: Upkeep) {
    && |trace| == |calls| + 1
    && forall k {:trigger calls[k]} | 0 <= k < |calls| ::
      trace[k].Ends? && Step(trace[k].segs, calls[k], trace[k + 1], upkeep)
  }

  /** One more call makes a run longer. */
  lemma RunGoesOn(trace: seq<Listing>, calls: seq<Call>, upkeep: Upkeep, call: Call, after: Listing)
    requires Run(trace, calls, upkeep) && trace[|calls|].Ends? && Step(trace[|calls|].segs, call, after, upkeep)
    ensures Run(trace + [after], calls + [call], upkeep)
  {
    var trace1, calls1 := trace + [after], calls + [call];
    forall k | 0 <= k < |calls1|
      ensures trace1[k].Ends? && Step(trace1[k].segs, calls1[k], trace1[k + 1], upkeep)
    {
      if k < |calls| { assert calls1[k] == calls[k] && trace1[k] == trace[k] && trace1[k + 1] == trace[k + 1]; }
    }
  }

  /** Behind a step that keeps the partition, another one decides. */
  lemma PartitionsCompose(a: Segments, b: Segments, c: Segments)
    requires Partitions(a, b)
    ensures Partitions(a, c) <==> Partitions(b, c)
  {
  }

  lemma {:induction false} CombineKeepsPages(segs: Segments, i: int)
    requires 0 < i < |segs| && segs[i - 1].kind == segs[i].kind == FREE
    ensures UsablePages(Combined(segs, i, Repaired)) == UsablePages(segs)
  {
    var pre, b, a, post := segs[..i - 1], segs[i - 1], segs[i], segs[i + 1..];
    CombinedInParts(segs, i, Repaired);
    SwapPages(pre, [b, a], Pair(b, a, Repaired), post);
    assert [b, a][..1] == [b] && [b][..0] == [] && Pair(b, a, Repaired)[..0] == [];
  }

  lemma {:induction false} FreeKeepsPartition(segs: Segments, after: Segments, i: int, combined: bool, upkeep: Upkeep)
    requires Separate(segs) && Sizes(segs) && 0 <= i < |segs| && segs[i].kind == USED
    requires combined ==> 0 < i && segs[i - 1].kind == FREE
    requires after == if combined then Combined(Released(segs, i), i, upkeep) else Released(segs, i)
    ensures Sizes(after)
    ensures Partitions(segs, after) <==>
      !combined || segs[i].size == 0 || (upkeep == Repaired && segs[i - 1].End() == segs[i].start)
    ensures !combined || upkeep == Repaired ==> UsablePages(after) == UsablePages(segs)
  {
    var released := Released(segs, i);
    ReleaseKeepsPartition(segs, i);
    if combined {
      CombineKeepsPartition(released, i, upkeep);
      PartitionsCompose(segs, released, after);
      if upkeep == Repaired { CombineKeepsPages(released, i); }
    }
  }

  /** A whole call keeps the partition exactly when it is safe, however the list is kept. */
  lemma {:induction false} StepKeepsPartition(segs: Segments, call: Call, after: Listing, upkeep: Upkeep)
    requires Separate(segs) && Sizes(segs) && Step(segs, call, after, upkeep)
    ensures Whole(segs, after) <==> Safe(segs, call, upkeep)
    ensures Whole(segs, after) ==> Sizes(after.segs)
    ensures Whole(segs, after) && (call.Allocate? || !call.combined || upkeep == Repaired) ==>
      UsablePages(after.segs) == UsablePages(segs)
  {
    match call
    case Allocate(n, i, j) =>
      if Splits(segs, n, i) && 0 < j {
        if j < i { RelistingLosesMemory(segs, n, i, j); }
      } else if i < |segs| {
        AllocateKeepsPartition(segs, after.segs, n, i);
      }
    case Free(start, i, combined) =>
      if i < |segs| && segs[i].kind == USED {
        FreeKeepsPartition(segs, after.segs, i, combined, upkeep);
      }
  }

  /** The first k calls are safe. */
  ghost predicate SafeUpTo(trace: seq<Listing>, calls: seq<Call>, k: nat, upkeep: Upkeep)
    requires Run(trace, calls, upkeep) && k <= |calls|
  {
    k > 0 ==>
      var call := calls[k - 1];
      Safe(trace[k - 1].segs, call, upkeep) && SafeUpTo(trace, calls, k - 1, upkeep)
  }

  /** The first k + 1 lists end and partition the memory the first one started from. */
  ghost predicate WholeUpTo(trace: seq<Listing>, k: nat)
    requires k < |trace| && trace[0].Ends?
  {
    Whole(trace[0].segs, trace[k]) && (k > 0 ==> WholeUpTo(trace, k - 1))
  }

  /** All through a run the list ends and its segments partition the usable memory they started
      from exactly when every call of it is safe, however the list is kept. */
  lemma {:induction false} RunKeepsPartition(trace: seq<Listing>, calls: seq<Call>, k: nat, upkeep: Upkeep)
    requires Run(trace, calls, upkeep) && k <= |calls|
    requires trace[0].Ends? && Separate(trace[0].segs) && Sizes(trace[0].segs)
    ensures WholeUpTo(trace, k) <==> SafeUpTo(trace, calls, k, upkeep)
    ensures WholeUpTo(trace, k) ==> Sizes(trace[k].segs)
  {
    if k > 0 {
      RunKeepsPartition(trace, calls, k - 1, upkeep);
      var call := calls[k - 1];
      assert Step(trace[k - 1].segs, call, trace[k], upkeep);
      if WholeUpTo(trace, k - 1) {
        StepKeepsPartition(trace[k - 1].segs, calls[k - 1], trace[k], upkeep);
        if trace[k].Ends? { PartitionsCompose(trace[0].segs, trace[k - 1].segs, trace[k].segs); }
      }
    }
  }

  /** Over any run of safe calls on a repaired list no page is gained or lost. */
  lemma {:induction false} RunKeepsPages(trace: seq<Listing>, calls: seq<Call>, k: nat)
    requires Run(trace, calls, Repaired) && k <= |calls|
    requires trace[0].Ends? && Separate(trace[0].segs) && Sizes(trace[0].segs)
    requires SafeUpTo(trace, calls, k, Repaired)
    ensures WholeUpTo(trace, k) && UsablePages(trace[k].segs) == UsablePages(trace[0].segs)
  {
    RunKeepsPartition(trace, calls, k, Repaired);
    if k > 0 {
      RunKeepsPages(trace, calls, k - 1);
      RunKeepsPartition(trace, calls, k - 1, Repaired);
      var call := calls[k - 1];
      assert Step(trace[k - 1].segs, call, trace[k], Repaired);
      StepKeepsPartition(trace[k - 1].segs, calls[k - 1], trace[k], Repaired);
    }
  }

  // ----- What is handed out -----

  /** The n pages are the end of the free segment they are taken from. */
  lemma TakenIsEnd(s: Segment, n: nat)
    requires s.kind == FREE && n <= s.size
    ensures s.kind == 0 && s.start <= TakenFrom(s, n)
    ensures TakenFrom(s, n) + n * 0x1000 == s.start + s.size * 0x1000
  {
  }

  /** In a partition what is free is not in use. */
  lemma FreeIsUnused(segs: Segments, x: int)
    requires Separate(segs)
    ensures InUse(segs, x) <==> Holds(segs, x, 0xA)
    ensures Holds(segs, x, 0) <==> Usable(segs, x) && !InUse(segs, x)
  {
    UsableIsHeld(segs, x);
  }

  /** An allocation that finds pages takes them where the list says free. They are then what the
      list says is in use, besides what was before. */
  lemma AllocationHolds(segs: Segments, n: nat, i: int, x: int)
    requires Separate(segs) && FirstFit(segs, n, i) && i < |segs|
    ensures var r, after := TakenFrom(segs[i], n), Taken(segs, n, i);
      && (r <= x < r + n * 0x1000 ==> Holds(segs, x, 0) && !Holds(segs, x, 0xA))
      && (Holds(after, x, 0xA) <==> Holds(segs, x, 0xA) || r <= x < r + n * 0x1000)
      && (Holds(after, x, 0) <==> Holds(segs, x, 0) && !(r <= x < r + n * 0x1000))
  {
    var r, after := TakenFrom(segs[i], n), Taken(segs, n, i);
    AllocateKeepsPartition(segs, after, n, i);
    FreeIsUnused(segs, x);
    FreeIsUnused(after, x);
    assert segs[i].Contains(x) ==> Usable(segs, x);
    assert InRange(x, r, n) <==> r <= x < r + n * 0x1000;
  }

  /** The n pages from r on are of regions that the memory map calls free, or in use; none was in
      use before, and all are afterwards. */
  ghost predicate HandedOut(regions: seq<Region>, before: Segments, after: Segments, r: int, n: nat) {
    forall x | r <= x < r + n * 0x1000 ::
      (MapSays(regions, x, 0) || MapSays(regions, x, 0xA)) && !Holds(before, x, 0xA) && Holds(after, x, 0xA)
  }

  lemma HeldWasMapped(regions: seq<Region>, segs: Segments, x: int)
    requires Partitions(StartList(regions), segs) && Holds(segs, x, 0)
    ensures MapSays(regions, x, 0) || MapSays(regions, x, 0xA)
  {
    UsableIsHeld(segs, x);
    UsableIsHeld(StartList(regions), x);
    StartsAsMapped(regions, x, 0);
    StartsAsMapped(regions, x, 0xA);
  }

  /** Whatever safe calls were made on a memory map whose regions are apart: an allocation that
      finds pages hands out those only. */
  lemma OnlyFreeMemory(regions: seq<Region>, trace: seq<Listing>, calls: seq<Call>, k: nat, upkeep: Upkeep, n: nat,
                       i: int)
    requires Run(trace, calls, upkeep) && k <= |calls| && trace[0] == Ends(StartList(regions))
    requires RegionsApart(regions) && SafeUpTo(trace, calls, k, upkeep)
    requires trace[k].Ends? && FirstFit(trace[k].segs, n, i) && i < |trace[k].segs|
    ensures HandedOut(regions, trace[k].segs, Taken(trace[k].segs, n, i), TakenFrom(trace[k].segs[i], n), n)
  {
    var segs, r := trace[k].segs, TakenFrom(trace[k].segs[i], n);
    StartIsSeparate(regions);
    RunKeepsPartition(trace, calls, k, upkeep);
    forall x | r <= x < r + n * 0x1000
      ensures MapSays(regions, x, 0) || MapSays(regions, x, 0xA)
      ensures !Holds(segs, x, 0xA) && Holds(Taken(segs, n, i), x, 0xA)
    {
      AllocationHolds(segs, n, i, x);
      HeldWasMapped(regions, segs, x);
    }
  }

  /** Two pages, and the lists they go through below. */
  function TwoPages(base: nat): Segments {
    [Segment(base, 2, FREE), Segment(0, 0, FREE)]
  }

  function SecondTaken(base: nat): Segments {
    [Segment(base, 1, FREE), Segment(base + PAGE, 1, USED), Segment(0, 0, FREE)]
  }

  function SecondReleased(base: nat): Segments {
    [Segment(base, 2, FREE), Segment(base + PAGE, 1, FREE), Segment(0, 0, FREE)]
  }

  /** Of two pages the second is taken and freed behind a free first one. */
  lemma TakenAndReleased(base: nat)
    requires 0 < base
    ensures Mapped([Region(base, 2 * PAGE, FREE)]) + [Segment(0, 0, FREE)] == TwoPages(base)
    ensures Separate(TwoPages(base)) && Sizes(TwoPages(base))
    ensures Step(TwoPages(base), Allocate(1, 0, -1), Ends(SecondTaken(base)), AsWritten)
    ensures Step(SecondTaken(base), Free(base + PAGE, 1, true), Ends(SecondReleased(base)), AsWritten)
  {
    assert Mapped([Region(base, 2 * PAGE, FREE)]) == [Segment(base, 2, FREE)];
  }

  /** As the code is written a page can be handed out twice, when the heap keeps the cell of a
      released entry: one page is taken three times after that. */
  lemma PageHandedOutTwice(base: nat)
    requires 0 < base
    ensures var next := base + PAGE;
      var s3 := [Segment(base, 1, FREE), Segment(next, 1, USED), Segment(next, 1, FREE), Segment(0, 0, FREE)];
      var s4 := [Segment(base, 1, USED), Segment(next, 1, USED), Segment(next, 1, FREE), Segment(0, 0, FREE)];
      var s5 := [Segment(base, 1, USED), Segment(next, 1, USED), Segment(next, 1, USED), Segment(0, 0, FREE)];
      && Run([Ends(TwoPages(base)), Ends(SecondTaken(base)), Ends(SecondReleased(base)), Ends(s3), Ends(s4), Ends(s5)],
             [Allocate(1, 0, -1), Free(next, 1, true), Allocate(1, 0, -1), Allocate(1, 0, -1), Allocate(1, 2, -1)],
             AsWritten)
      && TakenFrom(SecondReleased(base)[0], 1) == TakenFrom(s4[2], 1) == next && !Separate(s5)
  {
    var next := base + PAGE;
    var s3 := [Segment(base, 1, FREE), Segment(next, 1, USED), Segment(next, 1, FREE), Segment(0, 0, FREE)];
    var s4 := [Segment(base, 1, USED), Segment(next, 1, USED), Segment(next, 1, FREE), Segment(0, 0, FREE)];
    var s5 := [Segment(base, 1, USED), Segment(next, 1, USED), Segment(next, 1, USED), Segment(0, 0, FREE)];
    TakenAndReleased(base);
    assert Step(SecondReleased(base), Allocate(1, 0, -1), Ends(s3), AsWritten);
    assert Step(s3, Allocate(1, 0, -1), Ends(s4), AsWritten);
    assert Step(s4, Allocate(1, 2, -1), Ends(s5), AsWritten);
    assert s5[1].Contains(next) && s5[2].Contains(next);
  }

  /** When the heap frees that cell instead, the third call gets the released entry back, and
      the list has no end any more. */
  lemma ListWithoutEnd(base: nat)
    requires 0 < base
    ensures Run([Ends(TwoPages(base)), Ends(SecondTaken(base)), Ends(SecondReleased(base)), Endless],
                [Allocate(1, 0, -1), Free(base + PAGE, 1, true), Allocate(1, 0, 1)], AsWritten)
  {
    TakenAndReleased(base);
  }

  /** So it does after calls that kept the partition: no pages are taken and given back, and
      then one page is taken. */
  lemma ListWithoutEndAfterNothing(base: nat)
    requires 0 < base
    ensures var end := base + 2 * PAGE;
      var s1 := [Segment(base, 2, FREE), Segment(end, 0, USED), Segment(0, 0, FREE)];
      var s2 := [Segment(base, 2, FREE), Segment(end, 0, FREE), Segment(0, 0, FREE)];
      && Run([Ends(TwoPages(base)), Ends(s1), Ends(s2), Endless],
             [Allocate(0, 0, -1), Free(end, 1, true), Allocate(1, 0, 1)], AsWritten)
      && Safe(TwoPages(base), Allocate(0, 0, -1), AsWritten) && Safe(s1, Free(end, 1, true), AsWritten)
  {
  }

  // ----- The list in memory -----

  const NULL: int := 0

  /** A list entry as it stands in memory; links are addresses. */
  datatype Node = Node(start: int, size: int, kind: int, next: int, prev: int) {
    function Seg(): Segment {
      Segment(start, size, kind)
    }
  }

  type Memory = map<int, Node>

  predicate BackIs(link: int, before: int, earlier: set<int>, upkeep: Upkeep) {
    link == before || (upkeep == AsWritten && link in earlier)
  }

  /** From p on the list consists of the nodes ids and says segs. before is the node in front
      of p and earlier holds all nodes in front. A link back leads to the node in front, or
      as the code is written, to some node in front. */
  ghost predicate List(mem: Memory, p: int, before: int, earlier: set<int>, ids: seq<int>, segs: Segments,
                       upkeep: Upkeep)
    decreases |ids|
  {
    && |ids| == |segs|
    && if ids == [] then p == NULL
       else
         && p == ids[0] && p != NULL && p in mem && p !in earlier && mem[p].Seg() == segs[0]
         && BackIs(mem[p].prev, before, earlier, upkeep)
         && List(mem, mem[p].next, p, earlier + {p}, ids[1..], segs[1..], upkeep)
  }

  /** The list depends only on nodes that are not in front of it. */
  lemma {:induction false} ListFrame(mem: Memory, mem': Memory, p: int, before: int, earlier: set<int>,
                                     ids: seq<int>, segs: Segments, upkeep: Upkeep)
    requires List(mem, p, before, earlier, ids, segs, upkeep)
    requires forall d | d in mem && d !in earlier :: d in mem' && mem'[d] == mem[d]
    ensures List(mem', p, before, earlier, ids, segs, upkeep)
    decreases |ids|
  {
    if ids != [] {
      ListFrame(mem, mem', mem[p].next, p, earlier + {p}, ids[1..], segs[1..], upkeep);
    }
  }

  /** A node that is not in memory may as well count as being in front. */
  lemma {:induction false} ListBehindMore(mem: Memory, p: int, before: int, earlier: set<int>,
                                          ids: seq<int>, segs: Segments, upkeep: Upkeep, e: int)
    requires List(mem, p, before, earlier, ids, segs, upkeep) && e !in ids
    ensures List(mem, p, before, earlier + {e}, ids, segs, upkeep)
    decreases |ids|
  {
    if ids != [] {
      ListBehindMore(mem, mem[p].next, p, earlier + {p}, ids[1..], segs[1..], upkeep, e);
      assert earlier + {p} + {e} == earlier + {e} + {p};
    }
  }

  lemma {:induction false} ListNodes(mem: Memory, p: int, before: int, earlier: set<int>,
                                     ids: seq<int>, segs: Segments, upkeep: Upkeep, k: nat)
    requires List(mem, p, before, earlier, ids, segs, upkeep) && k < |ids|
    ensures ids[k] in mem && ids[k] != NULL && ids[k] !in earlier
    ensures mem[ids[k]].Seg() == segs[k]
    ensures mem[ids[k]].next == if k + 1 < |ids| then ids[k + 1] else NULL
    ensures 0 < k ==> ids[k] != ids[0]
    decreases |ids|
  {
    if k > 0 {
      ListNodes(mem, mem[p].next, p, earlier + {p}, ids[1..], segs[1..], upkeep, k - 1);
    } else if 1 < |ids| {
      assert ids[1..][0] == ids[1];
    } else {
      assert ids[1..] == [];
    }
  }

  /** Changing what node k says changes segment k. */
  lemma {:induction false} ListTell(mem: Memory, p: int, before: int, earlier: set<int>,
                                    ids: seq<int>, segs: Segments, upkeep: Upkeep, k: nat, node: Node)
    requires List(mem, p, before, earlier, ids, segs, upkeep) && k < |ids| && ids[k] in mem
    requires node.next == mem[ids[k]].next && node.prev == mem[ids[k]].prev
    ensures List(mem[ids[k] := node], p, before, earlier, ids, segs[k := node.Seg()], upkeep)
    decreases |ids|
  {
    var mem' := mem[ids[k] := node];
    if k == 0 {
      ListFrame(mem, mem', mem[p].next, p, earlier + {p}, ids[1..], segs[1..], upkeep);
    } else {
      ListNodes(mem, p, before, earlier, ids, segs, upkeep, k);
      ListTell(mem, mem[p].next, p, earlier + {p}, ids[1..], segs[1..], upkeep, k - 1, node);
      assert segs[k := node.Seg()][1..] == segs[1..][k - 1 := node.Seg()];
    }
  }

  function PutBehind(s: seq<int>, k: int, e: int): seq<int>
    requires 0 <= k < |s|
  {
    s[..k + 1] + [e] + s[k + 1..]
  }

  /** Memory with the fresh node e linked in behind node p; the old successor's link back is
      corrected or not. */
  ghost function WithNode(mem: Memory, p: int, e: int, seg: Segment, upkeep: Upkeep): Memory
    requires p in mem
  {
    var next := mem[p].next;
    var linked := mem[p := mem[p].(next := e)][e := Node(seg.start, seg.size, seg.kind, next, p)];
    if upkeep == Repaired && next in mem && next != p then linked[next := mem[next].(prev := e)] else linked
  }

  /** The rest of the list behind a node p that has got a new successor e. */
  lemma InsertTail(mem: Memory, p: int, earlier: set<int>, ids: seq<int>, segs: Segments, upkeep: Upkeep,
                   e: int, seg: Segment)
    requires p in mem && p !in earlier && List(mem, mem[p].next, p, earlier + {p}, ids, segs, upkeep)
    requires e !in mem && e != NULL && e !in earlier && NULL !in mem
    ensures List(WithNode(mem, p, e, seg, upkeep), e, p, earlier + {p}, [e] + ids, [seg] + segs, upkeep)
  {
    var mem', next := WithNode(mem, p, e, seg, upkeep), mem[p].next;
    forall k | 0 <= k < |ids| ensures ids[k] != e {
      ListNodes(mem, next, p, earlier + {p}, ids, segs, upkeep, k);
    }
    ListBehindMore(mem, next, p, earlier + {p}, ids, segs, upkeep, e);
    if ids != [] {
      var front := earlier + {p} + {e};
      ListFrame(mem, mem', mem[next].next, next, front + {next}, ids[1..], segs[1..], upkeep);
      assert List(mem', next, e, front, ids, segs, upkeep);
    }
    assert ([e] + ids)[1..] == ids && ([seg] + segs)[1..] == segs;
  }

  /** Behind the first node an insertion is one into the rest. */
  lemma InsertedRest(ids: seq<int>, segs: Segments, k: nat, e: int, seg: Segment)
    requires 0 < k < |ids| == |segs|
    ensures var ids', segs' := PutBehind(ids, k, e), segs[..k + 1] + [seg] + segs[k + 1..];
      && ids' != [] && ids'[0] == ids[0] && segs' != [] && segs'[0] == segs[0] && |ids'| == |segs'|
      && ids'[1..] == PutBehind(ids[1..], k - 1, e) && segs'[1..] == segs[1..][..k] + [seg] + segs[1..][k..]
  {
  }

  lemma NextIsNotFirst(mem: Memory, p: int, before: int, earlier: set<int>, ids: seq<int>, segs: Segments,
                       upkeep: Upkeep, k: nat)
    requires List(mem, p, before, earlier, ids, segs, upkeep) && 0 < k < |ids|
    ensures ids[k] in mem && ids[k] != p && mem[ids[k]].next != p
  {
    ListNodes(mem, p, before, earlier, ids, segs, upkeep, k);
    if k + 1 < |ids| {
      ListNodes(mem, p, before, earlier, ids, segs, upkeep, k + 1);
    }
  }

  lemma {:induction false} ListInsert(mem: Memory, p: int, before: int, earlier: set<int>, ids: seq<int>,
                                      segs: Segments, upkeep: Upkeep, k: nat, e: int, seg: Segment)
    requires List(mem, p, before, earlier, ids, segs, upkeep) && k < |ids| && ids[k] in mem
    requires e !in mem && e != NULL && e !in earlier && NULL !in mem
    ensures List(WithNode(mem, ids[k], e, seg, upkeep), p, before, earlier, PutBehind(ids, k, e),
                 segs[..k + 1] + [seg] + segs[k + 1..], upkeep)
    decreases |ids|
  {
    var mem' := WithNode(mem, ids[k], e, seg, upkeep);
    var ids', segs' := PutBehind(ids, k, e), segs[..k + 1] + [seg] + segs[k + 1..];
    ListNodes(mem, p, before, earlier, ids, segs, upkeep, k);
    if k == 0 {
      InsertTail(mem, p, earlier, ids[1..], segs[1..], upkeep, e, seg);
      assert ids'[1..] == [e] + ids[1..] && segs'[1..] == [seg] + segs[1..];
    } else {
      ListInsert(mem, mem[p].next, p, earlier + {p}, ids[1..], segs[1..], upkeep, k - 1, e, seg);
      InsertedRest(ids, segs, k, e, seg);
      NextIsNotFirst(mem, p, before, earlier, ids, segs, upkeep, k);
      assert mem'[p] == mem[p] && ids[1..][k - 1] == ids[k];
    }
  }

  lemma {:induction false} ListDistinct(mem: Memory, p: int, before: int, earlier: set<int>,
                                        ids: seq<int>, segs: Segments, upkeep: Upkeep, i: nat, j: nat)
    requires List(mem, p, before, earlier, ids, segs, upkeep) && i < j < |ids|
    ensures ids[i] != ids[j]
    decreases |ids|
  {
    if i == 0 {
      ListNodes(mem, p, before, earlier, ids, segs, upkeep, j);
    } else {
      ListDistinct(mem, mem[p].next, p, earlier + {p}, ids[1..], segs[1..], upkeep, i - 1, j - 1);
    }
  }

  /** The link back of node k leads to the node in front of it or, as the code is written,
      possibly to one further ahead. */
  lemma {:induction false} ListBack(mem: Memory, p: int, before: int, earlier: set<int>, ids: seq<int>,
                                    segs: Segments, upkeep: Upkeep, k: nat) returns (j: int)
    requires List(mem, p, before, earlier, ids, segs, upkeep) && 0 < k < |ids| && ids[k] in mem
    ensures mem[ids[k]].prev in earlier || (0 <= j < k && mem[ids[k]].prev == ids[j])
    ensures upkeep == Repaired ==> j == k - 1 && mem[ids[k]].prev == ids[j]
    decreases |ids|
  {
    if k == 1 {
      assert ids[1] == ids[1..][0];
      j := 0;
    } else {
      j := ListBack(mem, mem[p].next, p, earlier + {p}, ids[1..], segs[1..], upkeep, k - 1);
      if mem[ids[k]].prev == p && upkeep == AsWritten {
        j := 0;
      } else {
        j := j + 1;
      }
    }
  }

  lemma {:induction false} ListBehindLess(mem: Memory, p: int, before: int, earlier: set<int>, ids: seq<int>,
                                          segs: Segments, fewer: set<int>)
    requires List(mem, p, before, earlier, ids, segs, Repaired) && fewer <= earlier
    ensures List(mem, p, before, fewer, ids, segs, Repaired)
    decreases |ids|
  {
    if ids != [] {
      ListBehindLess(mem, mem[p].next, p, earlier + {p}, ids[1..], segs[1..], fewer + {p});
    }
  }

  /** Memory after node a has been combined into the node b in front of it and released. */
  ghost function WithoutNode(mem: Memory, b: int, a: int): Memory
    requires a in mem && b in mem
  {
    var next := mem[a].next;
    var grown := mem[b := mem[b].(size := mem[b].size + mem[a].size, next := next)];
    (if next in mem && next != b then grown[next := mem[next].(prev := b)] else grown) - {a}
  }

  lemma RemoveTail(mem: Memory, b: int, a: int, earlier: set<int>, ids: seq<int>, segs: Segments)
    requires b in mem && a in mem && a != b && NULL !in mem
    requires List(mem, mem[a].next, a, earlier + {b} + {a}, ids, segs, Repaired)
    ensures List(WithoutNode(mem, b, a), mem[a].next, b, earlier + {b}, ids, segs, Repaired)
  {
    var mem', next, front := WithoutNode(mem, b, a), mem[a].next, earlier + {b} + {a};
    if ids != [] {
      ListFrame(mem, mem', mem[next].next, next, front + {next}, ids[1..], segs[1..], Repaired);
      ListBehindLess(mem', mem[next].next, next, front + {next}, ids[1..], segs[1..], earlier + {b} + {next});
    }
  }

  lemma CombinedBehindFirst(segs: Segments, k: int)
    requires 1 < k < |segs|
    ensures Combined(segs, k, Repaired) != [] && Combined(segs, k, Repaired)[0] == segs[0]
    ensures Combined(segs, k, Repaired)[1..] == Combined(segs[1..], k - 1, Repaired)
  {
    assert segs[1..][..k - 2] == segs[..k - 1][1..] && segs[1..][k..] == segs[k + 1..];
  }

  lemma {:induction false} ListRemove(mem: Memory, p: int, before: int, earlier: set<int>, ids: seq<int>,
                                      segs: Segments, k: nat)
    requires List(mem, p, before, earlier, ids, segs, Repaired) && 0 < k < |ids| && NULL !in mem
    requires ids[k - 1] in mem && ids[k] in mem
    ensures List(WithoutNode(mem, ids[k - 1], ids[k]), p, before, earlier, ids[..k] + ids[k + 1..],
                 Combined(segs, k, Repaired), Repaired)
    decreases |ids|
  {
    var mem', ids', segs' := WithoutNode(mem, ids[k - 1], ids[k]), ids[..k] + ids[k + 1..], Combined(segs, k, Repaired);
    ListNodes(mem, p, before, earlier, ids, segs, Repaired, k);
    ListNodes(mem, p, before, earlier, ids, segs, Repaired, k - 1);
    if k == 1 {
      RemoveTail(mem, p, ids[1], earlier, ids[2..], segs[2..]);
      assert ids[1..][1..] == ids[2..] && segs[1..][1..] == segs[2..];
      assert ids'[1..] == ids[2..] && segs'[1..] == segs[2..];
    } else {
      ListRemove(mem, mem[p].next, p, earlier + {p}, ids[1..], segs[1..], k - 1);
      NextIsNotFirst(mem, p, before, earlier, ids, segs, Repaired, k);
      assert ids'[1..] == ids[1..][..k - 1] + ids[1..][k..];
      CombinedBehindFirst(segs, k);
    }
  }

  // ----- What the statements of a split do, whatever entry they are given -----

  const ZEROED: Node := Node(0, 0, FREE, NULL, NULL)

  /** Memory after kcalloc has cleared entry e and it was linked in behind p; the old successor's
      link back is corrected only in a repaired list. */
  ghost function Linked(mem: Memory, p: int, e: int, upkeep: Upkeep): (after: Memory)
    requires p in mem
    ensures p in after && e in after
  {
    var cleared := mem[e := ZEROED];
    var next := cleared[p].next;
    var entry := cleared[e := cleared[e].(next := next)];
    var back := entry[e := entry[e].(prev := p)];
    var linked := back[p := back[p].(next := e)];
    if upkeep == Repaired && next in linked then linked[next := linked[next].(prev := e)] else linked
  }

  /** Memory after n pages were moved from entry p to entry e. */
  ghost function Filled(mem: Memory, p: int, e: int, n: nat): (after: Memory)
    requires p in mem && e in mem
    ensures p in after && e in after
  {
    var sized := mem[e := mem[e].(size := n)];
    var cut := sized[p := sized[p].(size := sized[p].size - sized[e].size)];
    var placed := cut[e := cut[e].(start := cut[p].start + cut[p].size * PAGE)];
    placed[e := placed[e].(kind := USED)]
  }

  /** A new entry is linked in as the list wants it. */
  lemma LinkedIsWithNode(mem: Memory, p: int, e: int, upkeep: Upkeep)
    requires p in mem && e !in mem && NULL !in mem && e != NULL && mem[p].next != p && mem[p].next != e
    ensures Linked(mem, p, e, upkeep) == WithNode(mem, p, e, Segment(0, 0, FREE), upkeep)
  {
  }

  /** The entry k steps on from p, and NULL behind the last one. */
  ghost function At(mem: Memory, p: int, k: nat): int
    decreases k
  {
    if k == 0 then p else if p !in mem then NULL else At(mem, mem[p].next, k - 1)
  }

  /** The links from p on lead through the entries ids, which say segs, to an end. */
  ghost predicate Forward(mem: Memory, p: int, ids: seq<int>, segs: Segments) {
    && |ids| == |segs| && ids != [] && p == ids[0]
    && forall k | 0 <= k < |ids| ::
      && ids[k] in mem && ids[k] != NULL && mem[ids[k]].Seg() == segs[k]
      && mem[ids[k]].next == if k + 1 < |ids| then ids[k + 1] else NULL
  }

  /** What a walk from p meets. */
  ghost predicate Tells(mem: Memory, p: int, l: Listing) {
    match l
    case Ends(segs) => exists ids :: Forward(mem, p, ids, segs)
    case Endless => forall k: nat :: At(mem, p, k) != NULL
  }

  lemma ListTells(mem: Memory, p: int, ids: seq<int>, segs: Segments, upkeep: Upkeep)
    requires List(mem, p, NULL, {}, ids, segs, upkeep) && ids != []
    ensures Tells(mem, p, Ends(segs))
  {
    forall k | 0 <= k < |ids|
      ensures ids[k] in mem && ids[k] != NULL && mem[ids[k]].Seg() == segs[k]
      ensures mem[ids[k]].next == if k + 1 < |ids| then ids[k + 1] else NULL
    {
      ListNodes(mem, p, NULL, {}, ids, segs, upkeep, k);
    }
    assert Forward(mem, p, ids, segs);
  }

  /** Links that do not lead out of a set never come to an end. */
  lemma {:induction false} ClosedIsEndless(mem: Memory, s: set<int>, p: int, k: nat)
    requires p in s && NULL !in s && forall q | q in s :: q in mem && mem[q].next in s
    ensures At(mem, p, k) in s
    decreases k
  {
    if k > 0 { ClosedIsEndless(mem, s, mem[p].next, k - 1); }
  }

  lemma ListApart(mem: Memory, ids: seq<int>, segs: Segments, i: nat, j: nat)
    requires ids != [] && List(mem, ids[0], NULL, {}, ids, segs, AsWritten) && i < |ids| && j < |ids|
    ensures ids[i] == ids[j] <==> i == j
  {
    if i < j { ListDistinct(mem, ids[0], NULL, {}, ids, segs, AsWritten, i, j); }
    if j < i { ListDistinct(mem, ids[0], NULL, {}, ids, segs, AsWritten, j, i); }
  }

  /** The links after a split of entry i that was given the entry j of the list again. */
  lemma RelinkedNext(mem: Memory, ids: seq<int>, segs: Segments, n: nat, i: nat, j: nat, k: nat)
    requires ids != [] && List(mem, ids[0], NULL, {}, ids, segs, AsWritten) && i < |ids| && 0 < j < |ids| && k < |ids|
    requires ids[i] in mem
    ensures var after := Filled(Linked(mem, ids[i], ids[j], AsWritten), ids[i], ids[j], n);
      && ids[k] in after && ids[k] != NULL
      && after[ids[k]].next ==
          (if k == i then ids[j] else if k == j then (if i + 1 < |ids| then ids[i + 1] else NULL)
           else if k + 1 < |ids| then ids[k + 1] else NULL)
      && (k != i && k != j ==> after[ids[k]].Seg() == segs[k])
  {
    ListNodes(mem, ids[0], NULL, {}, ids, segs, AsWritten, i);
    ListNodes(mem, ids[0], NULL, {}, ids, segs, AsWritten, j);
    ListNodes(mem, ids[0], NULL, {}, ids, segs, AsWritten, k);
    ListApart(mem, ids, segs, k, i);
    ListApart(mem, ids, segs, k, j);
    ListApart(mem, ids, segs, i, j);
  }

  /** In front of the entry, or at it, the split closes a circle. */
  lemma RelinkedIsEndless(mem: Memory, ids: seq<int>, segs: Segments, n: nat, i: nat, j: nat)
    requires ids != [] && List(mem, ids[0], NULL, {}, ids, segs, AsWritten) && i <= j < |ids| && 0 < j && ids[i] in mem
    ensures Tells(Filled(Linked(mem, ids[i], ids[j], AsWritten), ids[i], ids[j], n), ids[0], Endless)
  {
    var after := Filled(Linked(mem, ids[i], ids[j], AsWritten), ids[i], ids[j], n);
    var s := set k | 0 <= k <= j :: ids[k];
    forall q | q in s ensures q in after && q != NULL && after[q].next in s {
      var k :| 0 <= k <= j && ids[k] == q;
      RelinkedNext(mem, ids, segs, n, i, j, k);
      assert ids[j] in s;
      if k < j { assert ids[k + 1] in s; }
      if i < j { assert ids[i + 1] in s; }
    }
    forall k: nat ensures At(after, ids[0], k) != NULL {
      ClosedIsEndless(after, s, ids[0], k);
    }
  }

  /** Behind the entry it cuts off what is between the two. */
  lemma RelinkedIsShorter(mem: Memory, ids: seq<int>, segs: Segments, n: nat, i: nat, j: nat)
    requires ids != [] && List(mem, ids[0], NULL, {}, ids, segs, AsWritten) && 0 < j < i < |ids| && ids[i] in mem
    ensures Tells(Filled(Linked(mem, ids[i], ids[j], AsWritten), ids[i], ids[j], n), ids[0],
                  Ends(segs[..j] + [Segment(TakenFrom(segs[i], n), n, USED)] + segs[i + 1..]))
  {
    var after := Filled(Linked(mem, ids[i], ids[j], AsWritten), ids[i], ids[j], n);
    var ids' := ids[..j + 1] + ids[i + 1..];
    var segs' := segs[..j] + [Segment(TakenFrom(segs[i], n), n, USED)] + segs[i + 1..];
    ListNodes(mem, ids[0], NULL, {}, ids, segs, AsWritten, i);
    ListApart(mem, ids, segs, i, j);
    assert after[ids[j]].Seg() == Segment(TakenFrom(segs[i], n), n, USED);
    forall k | 0 <= k < |ids'|
      ensures ids'[k] in after && ids'[k] != NULL && after[ids'[k]].Seg() == segs'[k]
      ensures after[ids'[k]].next == if k + 1 < |ids'| then ids'[k + 1] else NULL
    {
      var k0 := if k <= j then k else i + k - j;
      assert ids'[k] == ids[k0];
      RelinkedNext(mem, ids, segs, n, i, j, k0);
    }
    assert Forward(after, ids[0], ids', segs');
  }

  /** What a split that gets entry j again leaves, as Relisted says. */
  lemma RelinkedTells(mem: Memory, ids: seq<int>, segs: Segments, n: nat, i: nat, j: nat)
    requires ids != [] && List(mem, ids[0], NULL, {}, ids, segs, AsWritten)
    requires i < |ids| && 0 < j < |ids| && ids[i] in mem
    ensures Tells(Filled(Linked(mem, ids[i], ids[j], AsWritten), ids[i], ids[j], n), ids[0], Relisted(segs, n, i, j))
  {
    if i <= j {
      RelinkedIsEndless(mem, ids, segs, n, i, j);
    } else {
      RelinkedIsShorter(mem, ids, segs, n, i, j);
    }
  }

  // ----- The allocator itself -----

  /** The addresses that kcalloc will hand out are none of the entries in memory. */
  ghost predicate FreshPool(mem: Memory, pool: seq<int>) {
    && (forall k | 0 <= k < |pool| :: pool[k] !in mem && pool[k] != NULL)
    && (forall j, k | 0 <= j < k < |pool| :: pool[j] != pool[k])
  }

  /** As the code is written there may be released entries among them that are still in the
      list, though never the first one. */
  ghost predicate PoolFits(mem: Memory, pool: seq<int>, ids: seq<int>, upkeep: Upkeep)
    requires ids != []
  {
    && (forall k | 0 <= k < |pool| :: pool[k] != NULL)
    && (forall k | 0 <= k < |pool| :: pool[k] in mem ==> upkeep == AsWritten && pool[k] in ids[1..])
    && (forall j, k | 0 <= j < k < |pool| :: pool[j] != pool[k])
  }

  /** The addresses that kcalloc will hand out after entry a was given to kfree: a is among them,
      behind so many others, unless the heap keeps its cell or it was there already. */
  function PoolAfter(pool: seq<int>, a: int, back: Option<nat>): seq<int> {
    if back.None? || a in pool then pool
    else
      var k := if back.value <= |pool| then back.value else |pool|;
      pool[..k] + [a] + pool[k..]
  }

  /** The pool has one more address at most, and no address twice. */
  lemma PoolAfterMembers(pool: seq<int>, a: int, back: Option<nat>)
    requires forall j, k | 0 <= j < k < |pool| :: pool[j] != pool[k]
    ensures var after := PoolAfter(pool, a, back);
      && (forall k | 0 <= k < |after| :: after[k] == a || after[k] in pool)
      && (forall j, k | 0 <= j < k < |after| :: after[j] != after[k])
  {
    var after := PoolAfter(pool, a, back);
    if back.Some? && a !in pool {
      var at := if back.value <= |pool| then back.value else |pool|;
      forall k | 0 <= k < |after|
        ensures after[k] == if k < at then pool[k] else if k == at then a else pool[k - 1]
      {
      }
    }
  }

  lemma PoolStillFits(mem0: Memory, mem1: Memory, pool0: seq<int>, ids0: seq<int>, ids1: seq<int>, entry: int,
                      upkeep: Upkeep)
    requires ids0 != [] && ids1 != [] && PoolFits(mem0, pool0, ids0, upkeep) && pool0 != [] && pool0[0] == entry
    requires mem1.Keys == mem0.Keys + {entry} && forall e | e in ids0[1..] :: e in ids1[1..]
    ensures PoolFits(mem1, pool0[1..], ids1, upkeep)
  {
  }

  lemma BehindInserted(ids: seq<int>, k: nat, e: int)
    requires k < |ids|
    ensures PutBehind(ids, k, e) != [] && forall x | x in ids[1..] :: x in PutBehind(ids, k, e)[1..]
  {
    var more := PutBehind(ids, k, e);
    forall x | x in ids[1..] ensures x in more[1..] {
      var j :| 0 <= j < |ids| - 1 && ids[1..][j] == x;
      assert x == more[1..][if j + 1 <= k then j else j + 1];
    }
  }

  lemma LinkedKeys(mem: Memory, p: int, e: int, upkeep: Upkeep)
    requires p in mem
    ensures Linked(mem, p, e, upkeep).Keys == mem.Keys + {e}
  {
  }

  /** The list with an entry that is not in it linked in behind entry k. */
  lemma NewIsListed(mem: Memory, p: int, ids: seq<int>, segs: Segments, upkeep: Upkeep, pool: seq<int>, k: nat, e: int)
    requires ids != [] && List(mem, p, NULL, {}, ids, segs, upkeep) && NULL !in mem && PoolFits(mem, pool, ids, upkeep)
    requires k < |ids| && ids[k] in mem && pool != [] && e == pool[0] && e !in mem
    ensures var after := Linked(mem, ids[k], e, upkeep);
      && e in after && NULL !in after && PoolFits(after, pool[1..], PutBehind(ids, k, e), upkeep)
      && List(after, p, NULL, {}, PutBehind(ids, k, e), segs[..k + 1] + [Segment(0, 0, FREE)] + segs[k + 1..], upkeep)
  {
    ListNodes(mem, p, NULL, {}, ids, segs, upkeep, k);
    if k + 1 < |ids| {
      ListNodes(mem, p, NULL, {}, ids, segs, upkeep, k + 1);
      ListDistinct(mem, p, NULL, {}, ids, segs, upkeep, k, k + 1);
    }
    LinkedIsWithNode(mem, ids[k], e, upkeep);
    ListInsert(mem, p, NULL, {}, ids, segs, upkeep, k, e, Segment(0, 0, FREE));
    LinkedKeys(mem, ids[k], e, upkeep);
    BehindInserted(ids, k, e);
    PoolStillFits(mem, Linked(mem, ids[k], e, upkeep), pool, ids, PutBehind(ids, k, e), e, upkeep);
  }

  /** The list with n pages moved from entry k to the empty one behind it. */
  lemma FilledIsListed(mem: Memory, p: int, ids: seq<int>, segs: Segments, upkeep: Upkeep, k: nat, n: nat)
    requires List(mem, p, NULL, {}, ids, segs, upkeep) && k + 1 < |ids| && ids[k] in mem && ids[k + 1] in mem
    ensures var after := Filled(mem, ids[k], ids[k + 1], n);
      && after.Keys == mem.Keys && after[ids[k + 1]].start == TakenFrom(segs[k], n)
      && List(after, p, NULL, {}, ids,
              segs[k := segs[k].(size := segs[k].size - n)][k + 1 := Segment(TakenFrom(segs[k], n), n, USED)], upkeep)
  {
    var current, entry, after := ids[k], ids[k + 1], Filled(mem, ids[k], ids[k + 1], n);
    ListNodes(mem, p, NULL, {}, ids, segs, upkeep, k);
    ListDistinct(mem, p, NULL, {}, ids, segs, upkeep, k, k + 1);
    var mem1 := mem[current := after[current]];
    ListTell(mem, p, NULL, {}, ids, segs, upkeep, k, after[current]);
    ListTell(mem1, p, NULL, {}, ids, segs[k := after[current].Seg()], upkeep, k + 1, after[entry]);
    assert after == mem1[entry := after[entry]];
  }

  /** The list with segment k split, when the new entry is not in it. */
  lemma SplitIsListed(mem: Memory, p: int, ids: seq<int>, segs: Segments, upkeep: Upkeep, pool: seq<int>, k: nat,
                      e: int, n: nat)
    requires ids != [] && List(mem, p, NULL, {}, ids, segs, upkeep) && NULL !in mem && PoolFits(mem, pool, ids, upkeep)
    requires k < |ids| && ids[k] in mem && pool != [] && e == pool[0] && e !in mem && n < segs[k].size
    ensures var after := Filled(Linked(mem, ids[k], e, upkeep), ids[k], e, n);
      && NULL !in after && PoolFits(after, pool[1..], PutBehind(ids, k, e), upkeep)
      && List(after, p, NULL, {}, PutBehind(ids, k, e), segs[..k] + Split(segs[k], n) + segs[k + 1..], upkeep)
      && after[e].start == TakenFrom(segs[k], n)
  {
    NewIsListed(mem, p, ids, segs, upkeep, pool, k, e);
    var linked, more := Linked(mem, ids[k], e, upkeep), PutBehind(ids, k, e);
    var segs1 := segs[..k + 1] + [Segment(0, 0, FREE)] + segs[k + 1..];
    assert more[k] == ids[k] && more[k + 1] == e && segs1[k] == segs[k];
    FilledIsListed(linked, p, more, segs1, upkeep, k, n);
    assert segs1[k := segs[k].(size := segs[k].size - n)][k + 1 := Segment(TakenFrom(segs[k], n), n, USED)]
        == segs[..k] + Split(segs[k], n) + segs[k + 1..];
  }

  /** NullRead: the first entry was released, and its entry in front is read, at NULL. */
  datatype Outcome = Freed | NotUsed | NotFound | NullRead

  class Allocator {
    const head: int
    const upkeep: Upkeep

    // the entries in memory, and the addresses kcalloc will hand out for new ones
    var mem: Memory
    var pool: seq<int>

    // the entries of the list in order, and what they say
    ghost var ids: seq<int>
    ghost var segs: Segments

    // no entry was used again while it was in the list
    ghost var intact: bool

    // the calls so far, and the lists they led through
    ghost var trace: seq<Listing>
    ghost var calls: seq<Call>

    // the memory map it was made from
    ghost const regions: seq<Region>

    ghost predicate Valid()
      reads this
    {
      && intact && NULL !in mem && ids != []
      && List(mem, head, NULL, {}, ids, segs, upkeep)
      && PoolFits(mem, pool, ids, upkeep)
    }

    /** The calls so far are a run that led to the list as it is; a walk along the links meets
        what the run says. */
    ghost predicate Recorded()
      reads this
    {
      && Run(trace, calls, upkeep) && trace[0] == Ends(StartList(regions))
      && Tells(mem, head, trace[|calls|])
      && (intact ==> trace[|calls|] == Ends(segs))
    }

    /** Whatever was called so far: the list ends and partitions the memory it started from, and
        did so at every moment before, exactly when every call was safe. */
    lemma CallsKeepPartition()
      requires Recorded() && RegionsApart(regions)
      ensures WholeUpTo(trace, |calls|) <==> SafeUpTo(trace, calls, |calls|, upkeep)
      ensures SafeUpTo(trace, calls, |calls|, upkeep) ==> Whole(StartList(regions), trace[|calls|])
    {
      StartIsSeparate(regions);
      RunKeepsPartition(trace, calls, |calls|, upkeep);
    }

    /** The place in the list of the entry that kcalloc will hand out next, or -1. */
    ghost function Reused(): (j: int)
      requires Valid()
      reads this
      ensures j == -1 || (0 < j < |ids| && pool != [] && ids[j] == pool[0] && upkeep == AsWritten)
      ensures j == -1 ==> pool == [] || pool[0] !in mem
    {
      if pool == [] || pool[0] !in mem then -1
      else
        var j :| 0 <= j < |ids| - 1 && ids[1..][j] == pool[0];
        j + 1
    }

    /** The ghost side of filling in an entry. */
    ghost method Tell(mem0: Memory, k: nat, node: Node)
      requires ids != [] && List(mem0, head, NULL, {}, ids, segs, upkeep) && NULL !in mem0
      requires intact && PoolFits(mem0, pool, ids, upkeep)
      requires k < |ids| && ids[k] in mem0 && mem == mem0[ids[k] := node]
      requires node.next == mem0[ids[k]].next && node.prev == mem0[ids[k]].prev
      modifies this`segs
      ensures Valid() && segs == old(segs)[k := node.Seg()]
    {
      ListTell(mem0, head, NULL, {}, ids, segs, upkeep, k, node);
      segs := segs[k := node.Seg()];
    }

    /** A cleared entry, which may still be in the list. */
    method Kcalloc() returns (e: int)
      requires pool != []
      modifies this`mem, this`pool
      ensures e == old(pool[0]) && pool == old(pool)[1..] && mem == old(mem)[e := ZEROED]
    {
      e := pool[0];
      pool := pool[1..];
      mem := mem[e := ZEROED];
    }

    lemma SuccessorInMemory(at: nat)
      requires Valid() && at < |ids|
      ensures ids[at] in mem && (mem[ids[at]].next == NULL || mem[ids[at]].next in mem) && mem[ids[at]].next != ids[at]
    {
      ListNodes(mem, head, NULL, {}, ids, segs, upkeep, at);
      if at + 1 < |ids| {
        ListNodes(mem, head, NULL, {}, ids, segs, upkeep, at + 1);
        ListDistinct(mem, head, NULL, {}, ids, segs, upkeep, at, at + 1);
      }
    }

    /** Links a cleared entry in behind another. The old successor's link back is corrected only
        when the list is kept repaired. */
    method LinkBehind(current: int) returns (entry: int)
      requires current in mem && pool != [] && (upkeep == Repaired ==> pool[0] != current)
      requires NULL !in mem && pool[0] != NULL && (mem[current].next == NULL || mem[current].next in mem)
      modifies this`mem, this`pool
      ensures entry == old(pool[0]) && pool == old(pool)[1..]
      ensures mem == Linked(old(mem), current, entry, upkeep)
    {
      entry := Kcalloc();
      mem := mem[entry := mem[entry].(next := mem[current].next)];
      var successor := mem[entry].next;
      mem := mem[entry := mem[entry].(prev := current)];
      mem := mem[current := mem[current].(next := entry)];
      if upkeep == Repaired && successor != NULL {
        mem := mem[successor := mem[successor].(prev := entry)];
      }
    }

    /** Fills the last entry from a region and puts an empty one behind it. */
    method Append(current: int, region: Region) returns (next: int)
      requires Valid() && FreshPool(mem, pool) && current == ids[|ids| - 1] && pool != []
      modifies this`mem, this`pool, this`ids, this`segs
      ensures Valid() && FreshPool(mem, pool)
      ensures |ids| == old(|ids|) + 1 && next == ids[|ids| - 1] && |pool| == old(|pool|) - 1
      ensures segs == old(segs)[..old(|segs|) - 1]
        + [Segment(region.base, region.length / PAGE, region.kind), Segment(0, 0, FREE)]
    {
      ghost var k := |ids| - 1;
      ListNodes(mem, head, NULL, {}, ids, segs, upkeep, k);
      ghost var mem0 := mem;
      ghost var node := mem[current].(size := region.length / PAGE, start := region.base, kind := region.kind);
      mem := mem[current := mem[current].(size := region.length / PAGE)];
      mem := mem[current := mem[current].(start := region.base)];
      mem := mem[current := mem[current].(kind := region.kind)];
      assert mem == mem0[current := node];
      Tell(mem0, k, node);
      SuccessorInMemory(k);
      ghost var mem1, pool1 := mem, pool;
      next := LinkBehind(current);
      NewIsListed(mem1, head, ids, segs, upkeep, pool1, k, next);
      LinkedKeys(mem1, current, next, upkeep);
      ids, segs := PutBehind(ids, k, next), segs[..k + 1] + [Segment(0, 0, FREE)] + segs[k + 1..];
    }

    /** The loop over the memory map. */
    method AppendAll(regions: seq<Region>)
      requires Valid() && FreshPool(mem, pool) && ids == [head] && segs == [Segment(0, 0, FREE)] && |regions| <= |pool|
      modifies this`mem, this`pool, this`ids, this`segs
      ensures Valid() && segs == StartList(regions) && |pool| == old(|pool|) - |regions|
    {
      var current := head;
      for i := 0 to |regions|
        invariant Valid() && FreshPool(mem, pool) && |ids| == i + 1 && current == ids[i] && |pool| == old(|pool|) - i
        invariant segs == Mapped(regions)[..i] + [Segment(0, 0, FREE)]
      {
        current := Append(current, regions[i]);
      }
    }

    /** One entry for each region of the memory map, and an empty one behind the last. An address
        is in a segment of a kind just where the map has a page of that kind. */
    constructor (head: int, pool: seq<int>, regions: seq<Region>, upkeep: Upkeep)
      requires head != NULL && FreshPool(map[head := Node(0, 0, FREE, NULL, NULL)], pool) && |regions| <= |pool|
      ensures Valid() && segs == StartList(regions) && this.upkeep == upkeep && this.regions == regions
      ensures forall x, kind :: Holds(segs, x, kind) <==> MapSays(regions, x, kind)
      ensures Recorded() && calls == [] && |this.pool| == |pool| - |regions|
    {
      this.head, this.pool, this.upkeep, this.regions := head, pool, upkeep, regions;
      mem := map[head := Node(0, 0, FREE, NULL, NULL)];
      ids, segs, intact := [head], [Segment(0, 0, FREE)], true;
      new;
      AppendAll(regions);
      trace, calls := [Ends(segs)], [];
      ListTells(mem, head, ids, segs, upkeep);
      forall x, kind ensures Holds(segs, x, kind) <==> MapSays(regions, x, kind) {
        StartsAsMapped(regions, x, kind);
      }
    }

    /** The record goes on with a call that led to the list as it is. */
    ghost method Record(segs0: Segments, call: Call, after: Listing)
      requires Run(trace, calls, upkeep) && trace[|calls|] == Ends(segs0) && Step(segs0, call, after, upkeep)
      requires trace[0] == Ends(StartList(regions))
      requires Tells(mem, head, after) && (intact ==> after == Ends(segs))
      modifies this`trace, this`calls
      ensures Recorded() && trace == old(trace) + [after] && calls == old(calls) + [call]
    {
      RunGoesOn(trace, calls, upkeep, call, after);
      trace, calls := trace + [after], calls + [call];
    }

    /** The walk along the list for the first fit. */
    method FindFit(n: nat) returns (current: int, ghost at: int)
      requires Valid()
      ensures FirstFit(segs, n, at)
      ensures current == if at < |ids| then ids[at] else NULL
      ensures current == NULL <==> at == |ids|
    {
      current, at := head, 0;
      ListNodes(mem, head, NULL, {}, ids, segs, upkeep, 0);
      while current != NULL
        invariant 0 <= at <= |ids| && current == (if at < |ids| then ids[at] else NULL)
        invariant current == NULL <==> at == |ids|
        invariant forall j | 0 <= j < at :: segs[j].kind != FREE || segs[j].size < n
        decreases |ids| - at
      {
        ListNodes(mem, head, NULL, {}, ids, segs, upkeep, at);
        if at + 1 < |ids| { ListNodes(mem, head, NULL, {}, ids, segs, upkeep, at + 1); }
        if mem[current].kind == FREE {
          if mem[current].size == n { return; }
          if mem[current].size > n { return; }
        }
        current := mem[current].next;
        at := at + 1;
      }
    }

    /** Moves n pages from the end of a segment to another entry. */
    method FillEntries(current: int, entry: int, n: nat)
      requires current in mem && entry in mem
      modifies this`mem
      ensures mem == Filled(old(mem), current, entry, n)
    {
      mem := mem[entry := mem[entry].(size := n)];
      mem := mem[current := mem[current].(size := mem[current].size - mem[entry].size)];
      mem := mem[entry := mem[entry].(start := mem[current].start + mem[current].size * PAGE)];
      mem := mem[entry := mem[entry].(kind := USED)];
    }

    lemma SameEntry(mem0: Memory, i: nat, j: nat)
      requires ids != [] && List(mem0, head, NULL, {}, ids, segs, AsWritten) && i < |ids| && j < |ids|
      ensures ids[i] == ids[j] <==> i == j
    {
      ListApart(mem0, ids, segs, i, j);
    }

    /** Puts an entry for the last n pages of a segment behind it. When kcalloc hands out one that
        is still in the list, that is what becomes of the list. */
    method SplitEntry(current: int, n: nat, ghost at: nat) returns (r: int, ghost after: Listing)
      requires Valid() && pool != [] && at < |ids| && current == ids[at]
      requires current in mem && n < mem[current].size
      modifies this`mem, this`pool, this`ids, this`segs, this`intact
      ensures pool == old(pool)[1..] && Tells(mem, head, after)
      ensures intact <==> old(Reused()) == -1
      ensures intact ==> Valid() && after == Ends(segs)
      ensures after == if old(Reused()) == -1 then Ends(old(segs)[..at] + Split(old(segs)[at], n) + old(segs)[at + 1..])
        else Relisted(old(segs), n, at, old(Reused()))
      ensures r == if old(Reused()) == at then 0 else TakenFrom(old(segs)[at], n)
    {
      ghost var mem0, pool0, reused, segs0 := mem, pool, Reused(), segs;
      ListNodes(mem, head, NULL, {}, ids, segs, upkeep, at);
      SuccessorInMemory(at);
      var entry := LinkBehind(current);
      FillEntries(current, entry, n);
      r := mem[entry].start;
      if reused == -1 {
        SplitIsListed(mem0, head, ids, segs, upkeep, pool0, at, entry, n);
        ids, segs := PutBehind(ids, at, entry), segs[..at] + Split(segs[at], n) + segs[at + 1..];
        after := Ends(segs);
        ListTells(mem, head, ids, segs, upkeep);
      } else {
        intact, after := false, Relisted(segs, n, at, reused);
        RelinkedTells(mem0, ids, segs, n, at, reused);
        if at != reused { SameEntry(mem0, at, reused); }
      }
    }

    /** The allocation itself. */
    method TakePages(n: nat) returns (r: int, ghost at: int, ghost after: Listing)
      requires Valid() && pool != []
      modifies this`mem, this`pool, this`ids, this`segs, this`intact
      ensures AllocateStep(old(segs), after, n, at, old(Reused())) && Tells(mem, head, after)
      ensures intact <==> !(Splits(old(segs), n, at) && 0 < old(Reused()))
      ensures intact ==> Valid() && after == Ends(segs)
      ensures r ==
        if at == |old(segs)| || (Splits(old(segs), n, at) && old(Reused()) == at) then 0
        else TakenFrom(old(segs)[at], n)
      ensures |pool| >= old(|pool|) - 1
    {
      var current;
      current, at := FindFit(n);
      if current == NULL {
        after := Ends(segs);
        ListTells(mem, head, ids, segs, upkeep);
        return 0, at, after;
      }
      ListNodes(mem, head, NULL, {}, ids, segs, upkeep, at);
      if mem[current].size == n {
        ListTell(mem, head, NULL, {}, ids, segs, upkeep, at, mem[current].(kind := USED));
        mem := mem[current := mem[current].(kind := USED)];
        segs := segs[at := mem[current].Seg()];
        r, after := mem[current].start, Ends(segs);
        ListTells(mem, head, ids, segs, upkeep);
      } else {
        r, after := SplitEntry(current, n, at);
      }
    }

    /** Takes n pages from the first free segment that has them; NULL when none has. */
    method AllocatePages(n: nat) returns (r: int, ghost at: int)
      requires Valid() && Recorded() && pool != []
      modifies this
      ensures Recorded() && calls == old(calls) + [Allocate(n, at, old(Reused()))]
      ensures trace == old(trace) + [trace[|calls|]]
      ensures AllocateStep(old(segs), trace[|calls|], n, at, old(Reused()))
      ensures intact <==> !(Splits(old(segs), n, at) && 0 < old(Reused()))
      ensures intact ==> Valid()
      ensures r ==
        if at == |old(segs)| || (Splits(old(segs), n, at) && old(Reused()) == at) then 0
        else TakenFrom(old(segs)[at], n)
      ensures |pool| >= old(|pool|) - 1
      ensures 0 <= at <= |old(segs)| && forall k | 0 <= k < at :: old(segs)[k].kind != 0 || old(segs)[k].size < n
      ensures at == |old(segs)| ==> r == 0 && intact && segs == old(segs)
      ensures at < |old(segs)| && intact ==>
        var s := old(segs)[at];
        s.kind == 0 && n <= s.size && s.start <= r && r + n * 0x1000 == s.start + s.size * 0x1000
      ensures RegionsApart(regions) && old(SafeUpTo(trace, calls, |calls|, upkeep)) ==>
        at < |old(segs)| && intact ==> HandedOut(regions, old(segs), segs, r, n)
    {
      ghost var segs0, j := segs, Reused();
      ghost var after;
      r, at, after := TakePages(n);
      if at < |segs0| && intact {
        TakenIsEnd(segs0[at], n);
        if RegionsApart(regions) && SafeUpTo(trace, calls, |calls|, upkeep) {
          OnlyFreeMemory(regions, trace, calls, |calls|, upkeep, n, at);
        }
      }
      Record(segs0, Allocate(n, at, j), after);
    }

    /** The link back of an entry leads to the entry right in front of it. */
    ghost predicate LinksBack(at: int)
      reads this
    {
      0 < at < |ids| && ids[at] in mem && mem[ids[at]].prev == ids[at - 1]
    }

    lemma PrevInMemory(at: nat) returns (j: int)
      requires Valid() && 0 < at < |ids|
      ensures ids[at] in mem && 0 <= j < at && mem[ids[at]].prev == ids[j] && ids[j] in mem
      ensures mem[ids[j]].Seg() == segs[j] && mem[ids[at]].Seg() == segs[at]
      ensures mem[ids[j]].next == ids[at] <==> j == at - 1
      ensures upkeep == Repaired ==> j == at - 1
    {
      ListNodes(mem, head, NULL, {}, ids, segs, upkeep, at);
      j := ListBack(mem, head, NULL, {}, ids, segs, upkeep, at);
      ListNodes(mem, head, NULL, {}, ids, segs, upkeep, j);
      if j + 1 < at {
        ListDistinct(mem, head, NULL, {}, ids, segs, upkeep, j + 1, at);
      }
    }

    /** Only the first entry has no entry in front. */
    lemma FirstLinksToNull(at: nat)
      requires Valid() && at < |ids|
      ensures ids[at] in mem && (mem[ids[at]].prev == NULL <==> at == 0)
    {
      ListNodes(mem, head, NULL, {}, ids, segs, upkeep, at);
      if at > 0 {
        var j := PrevInMemory(at);
        ListNodes(mem, head, NULL, {}, ids, segs, upkeep, j);
      }
    }

    /** The walk along the list for the first segment that starts at an address. */
    method FindAt(start: int) returns (entry: int, ghost at: int)
      requires Valid()
      ensures FirstAt(segs, start, at)
      ensures entry == if at < |ids| then ids[at] else NULL
      ensures entry == NULL <==> at == |ids|
    {
      entry, at := head, 0;
      ListNodes(mem, head, NULL, {}, ids, segs, upkeep, 0);
      while entry != NULL
        invariant 0 <= at <= |ids| && entry == (if at < |ids| then ids[at] else NULL)
        invariant entry == NULL <==> at == |ids|
        invariant forall j | 0 <= j < at :: segs[j].start != start
        decreases |ids| - at
      {
        ListNodes(mem, head, NULL, {}, ids, segs, upkeep, at);
        if at + 1 < |ids| { ListNodes(mem, head, NULL, {}, ids, segs, upkeep, at + 1); }
        if mem[entry].start == start { return; }
        entry := mem[entry].next;
        at := at + 1;
      }
    }

    lemma SamePlace(i: nat, j: nat)
      requires Valid() && i < |ids| && j < |ids| && ids[i] == ids[j]
      ensures i == j
    {
      if i < j { ListDistinct(mem, head, NULL, {}, ids, segs, upkeep, i, j); }
      if j < i { ListDistinct(mem, head, NULL, {}, ids, segs, upkeep, j, i); }
    }

    /** Takes entry a out of the list, whose size the one in front of it has got already. */
    method Unlink(b: int, a: int, ghost mem0: Memory)
      requires a in mem0 && b in mem0 && a != b && NULL !in mem0 && mem0[a].next != a
      requires mem0[a].next == NULL || (mem0[a].next in mem0 && mem0[a].next != b)
      requires mem == mem0[b := mem0[b].(size := mem0[b].size + mem0[a].size)]
      modifies this`mem
      ensures mem == WithoutNode(mem0, b, a)
    {
      var next := mem[a].next;
      mem := mem[b := mem[b].(next := next)];
      if next != NULL {
        mem := mem[next := mem[next].(prev := b)];
      }
      mem := mem - {a};
    }

    lemma UnlinkedIsListed(mem0: Memory, i: nat)
      requires ids != [] && List(mem0, head, NULL, {}, ids, segs, Repaired) && NULL !in mem0
      requires PoolFits(mem0, pool, ids, Repaired) && 0 < i < |ids|
      ensures ids[i] in mem0 && ids[i - 1] in mem0 && ids[i] != ids[i - 1] && mem0[ids[i]].next != ids[i]
      ensures mem0[ids[i]].next == NULL || (mem0[ids[i]].next in mem0 && mem0[ids[i]].next != ids[i - 1])
      ensures var after, left := WithoutNode(mem0, ids[i - 1], ids[i]), ids[..i] + ids[i + 1..];
        && left != [] && NULL !in after && ids[i] !in after && PoolFits(after, pool, left, Repaired)
        && List(after, head, NULL, {}, left, Combined(segs, i, Repaired), Repaired)
    {
      ListNodes(mem0, head, NULL, {}, ids, segs, Repaired, i);
      ListNodes(mem0, head, NULL, {}, ids, segs, Repaired, i - 1);
      ListDistinct(mem0, head, NULL, {}, ids, segs, Repaired, i - 1, i);
      if i + 1 < |ids| {
        ListNodes(mem0, head, NULL, {}, ids, segs, Repaired, i + 1);
        ListDistinct(mem0, head, NULL, {}, ids, segs, Repaired, i, i + 1);
        ListDistinct(mem0, head, NULL, {}, ids, segs, Repaired, i - 1, i + 1);
      }
      ListRemove(mem0, head, NULL, {}, ids, segs, i);
    }

    lemma PoolTakesBack(a: int, back: Option<nat>)
      requires ids != [] && PoolFits(mem, pool, ids, upkeep) && a != NULL
      requires a in mem ==> upkeep == AsWritten && a in ids[1..]
      ensures PoolFits(mem, PoolAfter(pool, a, back), ids, upkeep)
    {
      var after := PoolAfter(pool, a, back);
      PoolAfterMembers(pool, a, back);
      forall k | 0 <= k < |after|
        ensures after[k] != NULL && (after[k] in mem ==> upkeep == AsWritten && after[k] in ids[1..])
      {
        assert after[k] == a || after[k] in pool;
      }
    }

    /** Adds the size of entry a to the one in front of it and releases a. As the code is
        written the release leaves a in the list, while kcalloc may hand it out again. */
    method Absorb(b: int, a: int, back: Option<nat>, ghost i: nat)
      requires Valid() && 0 < i < |ids| && a == ids[i] && b == ids[i - 1] && a in mem && b in mem
      modifies this`mem, this`pool, this`ids, this`segs
      ensures Valid() && segs == Combined(old(segs), i, upkeep) && pool == PoolAfter(old(pool), a, back)
    {
      ghost var mem0 := mem;
      ListNodes(mem, head, NULL, {}, ids, segs, upkeep, i);
      ListNodes(mem, head, NULL, {}, ids, segs, upkeep, i - 1);
      mem := mem[b := mem[b].(size := mem[b].size + mem[a].size)];
      if upkeep == AsWritten {
        Tell(mem0, i - 1, mem[b]);
        assert ids[1..][i - 1] == a;
      } else {
        UnlinkedIsListed(mem0, i);
        Unlink(b, a, mem0);
        ids, segs := ids[..i] + ids[i + 1..], Combined(segs, i, Repaired);
      }
      PoolTakesBack(a, back);
      pool := PoolAfter(pool, a, back);
    }

    lemma NextInMemory(k: nat)
      requires Valid() && k < |ids|
      ensures ids[k] in mem && ids[k] != NULL
      ensures mem[ids[k]].next == if k + 1 < |ids| then ids[k + 1] else NULL
    {
      ListNodes(mem, head, NULL, {}, ids, segs, upkeep, k);
    }

    /** Combines two entries of one kind, if each leads to the other. */
    method CombineSegments(a: int, b: int, back: Option<nat>, ghost i: nat, ghost j: nat) returns (ghost combined: bool)
      requires Valid() && i < |ids| && j < |ids| && i != j && a == ids[i] && b == ids[j]
      requires a in mem && b in mem && mem[a].kind == mem[b].kind
      modifies this`mem, this`pool, this`ids, this`segs
      ensures Valid()
      ensures combined <==> old((mem[a].next == b && mem[b].prev == a) || (mem[a].prev == b && mem[b].next == a))
      ensures combined ==> (if i < j then i + 1 == j else j + 1 == i)
      ensures pool == if combined then PoolAfter(old(pool), old(ids)[if i < j then j else i], back) else old(pool)
      ensures segs == if combined then Combined(old(segs), if i < j then j else i, upkeep) else old(segs)
    {
      combined := false;
      NextInMemory(i);
      NextInMemory(j);
      if mem[a].next == b && mem[b].prev == a {
        SamePlace(i + 1, j);
        Absorb(a, b, back, j);
        return true;
      }
      if mem[a].prev == b && mem[b].next == a {
        SamePlace(j + 1, i);
        Absorb(b, a, back, i);
        return true;
      }
    }

    /** The release itself. */
    method ReleasePages(page: int, back: Option<nat>) returns (outcome: Outcome, ghost at: int, ghost combined: bool)
      requires Valid() && page % PAGE == 0
      modifies this`mem, this`pool, this`ids, this`segs
      ensures Valid() && FreeStep(old(segs), segs, page, at, combined, upkeep)
      ensures outcome ==
        if at == |old(segs)| then NotFound
        else if old(segs)[at].kind != USED then NotUsed
        else if at == 0 then NullRead else Freed
      ensures combined <==> outcome == Freed && old(segs)[at - 1].kind == FREE && old(LinksBack(at))
      ensures pool == if combined then PoolAfter(old(pool), old(ids)[at], back) else old(pool)
    {
      combined := false;
      var entry;
      entry, at := FindAt(page);
      if entry == NULL {
        return NotFound, at, combined;
      }
      ListNodes(mem, head, NULL, {}, ids, segs, upkeep, at);
      if mem[entry].kind != USED {
        return NotUsed, at, combined;
      }
      ghost var mem0 := mem;
      mem := mem[entry := mem[entry].(kind := FREE)];
      Tell(mem0, at, mem[entry]);
      if mem[entry].prev == NULL {
        FirstLinksToNull(at);
        return NullRead, at, combined;
      }
      FirstLinksToNull(at);
      ghost var j := PrevInMemory(at);
      if ids[j] == ids[at - 1] { SamePlace(j, at - 1); }
      var before := mem[entry].prev;
      if mem[before].kind == FREE {
        combined := CombineSegments(entry, before, back, at, j);
      }
      outcome := Freed;
    }

    /** Frees the segment that starts at a page; panics when there is none. The first entry
        has no entry in front, but the code reads one. back says after how many others kcalloc
        hands out a released entry again; None when the heap keeps its cell. */
    method FreePages(page: int, back: Option<nat>) returns (outcome: Outcome, ghost at: int, ghost combined: bool)
      requires Valid() && Recorded() && page % PAGE == 0
      modifies this
      ensures Valid() && FreeStep(old(segs), segs, page, at, combined, upkeep)
      ensures outcome ==
        if at == |old(segs)| then NotFound
        else if old(segs)[at].kind != USED then NotUsed
        else if at == 0 then NullRead else Freed
      ensures combined <==> outcome == Freed && old(segs)[at - 1].kind == FREE && old(LinksBack(at))
      ensures Recorded() && calls == old(calls) + [Free(page, at, combined)] && trace == old(trace) + [Ends(segs)]
      ensures pool == if combined then PoolAfter(old(pool), old(ids)[at], back) else old(pool)
    {
      ghost var segs0 := segs;
      outcome, at, combined := ReleasePages(page, back);
      ListTells(mem, head, ids, segs, upkeep);
      Record(segs0, Free(page, at, combined), Ends(segs));
    }
  }
}
