/** Four-level page tables, updated through raw entries, as an implementation of a flat
    partial map from virtual page numbers to frames. */
module PageTables {
  import opened Machine
  import KernelHeap

  const PAGE: int := 0x1000
  const PAGE_NUMBERS: int := 0x10_0000_0000  // bits 12 to 47

  /** A table has 512 raw entries. */
  type Table = t: seq<u64> | |t| == 512 witness seq(512, _ => 0)

  /** Physical memory as far as it holds page tables, by table address. */
  type Memory = map<int, Table>

  predicate Present(e: u64) {
    e % 2 == 1
  }

  /** The entry without its low twelve bits: a table address or a frame. */
  function Base(e: u64): (b: u64)
    ensures b % 0x1000 == 0 && b <= e < b + 0x1000
  {
    e - e % PAGE
  }

  /** base | PRESENT | WRITABLE */
  function Entry(base: u64): (e: u64)
    requires base % PAGE == 0
    ensures Base(e) == base && Present(e) && e != 0 && e % 0x1000 == 3
  {
    base + 3
  }

  /** An entry that is not empty has bits 0 and 1 set: it is present and its page can be written. */
  predicate Writable(e: u64) {
    e == 0 || e % 4 == 3
  }

  lemma ThreeMore(k: int, e: int)
    requires e == 4 * k + 3
    ensures e % 4 == 3
  {
  }

  lemma EntryIsWritable(base: u64)
    requires base % PAGE == 0
    ensures Writable(Entry(base))
  {
    ThreeMore(base / PAGE * 0x400, Entry(base));
  }

  /** What a last-level entry says about its page. */
  function Leaf(e: u64): Option<u64> {
    if Present(e) then Some(Base(e)) else None
  }

  // ----- Page numbers and table indices -----

  function PageNumber(virtualAddr: u64): int {
    virtualAddr / PAGE % PAGE_NUMBERS
  }

  /** The four table indices in a virtual address, highest level first. */
  function Indices(virtualAddr: u64): seq<int> {
    [virtualAddr / 0x80_0000_0000 % 512,
     virtualAddr / 0x4000_0000 % 512,
     virtualAddr / 0x20_0000 % 512,
     virtualAddr / 0x1000 % 512]
  }

  /** The four table indices of a page number. */
  function Path(page: int): seq<int> {
    [page / 0x800_0000 % 512, page / 0x4_0000 % 512, page / 0x200 % 512, page % 512]
  }

  lemma Split512(q: int, r: int)
    requires 0 <= r < 512
    ensures (512 * q + r) / 512 == q && (512 * q + r) % 512 == r
  {
  }

  lemma Split18(q: int, r: int)
    requires 0 <= r < 0x4_0000
    ensures (0x4_0000 * q + r) / 0x4_0000 == q
  {
  }

  lemma Split27(q: int, r: int)
    requires 0 <= r < 0x800_0000
    ensures (0x800_0000 * q + r) / 0x800_0000 == q
  {
  }

  /** Subtracting a multiple of 2^36 changes none of the four nine-bit digits. */
  lemma Wrapped0(p: int, high: int)
    ensures (p - high * PAGE_NUMBERS) % 512 == p % 512
  {
    Split512(p / 512 - high * 0x800_0000, p % 512);
  }

  lemma Wrapped1(p: int, high: int)
    ensures (p - high * PAGE_NUMBERS) / 0x200 % 512 == p / 0x200 % 512
  {
    var a := p / 0x200;
    Split512(a - high * 0x800_0000, p % 0x200);
    Split512(a / 512 - high * 0x4_0000, a % 512);
  }

  lemma Wrapped2(p: int, high: int)
    ensures (p - high * PAGE_NUMBERS) / 0x4_0000 % 512 == p / 0x4_0000 % 512
  {
    var a := p / 0x4_0000;
    Split18(a - high * 0x4_0000, p % 0x4_0000);
    Split512(a / 512 - high * 0x200, a % 512);
  }

  lemma Wrapped3(p: int, high: int)
    ensures (p - high * PAGE_NUMBERS) / 0x800_0000 % 512 == p / 0x800_0000 % 512
  {
    var a := p / 0x800_0000;
    Split27(a - high * 0x200, p % 0x800_0000);
    Split512(a / 512 - high, a % 512);
  }

  lemma Quotient(v: int, k: int)
    requires 0 <= v && (k == 0x200 || k == 0x4_0000 || k == 0x800_0000)
    ensures v / (PAGE * k) == v / PAGE / k
  {
    var a := v / PAGE;
    var b := a / k;
    assert v == PAGE * a + v % PAGE && a == k * b + a % k;
    if k == 0x200 {
      assert v == 0x20_0000 * b + (PAGE * (a % k) + v % PAGE);
    } else if k == 0x4_0000 {
      assert v == 0x4000_0000 * b + (PAGE * (a % k) + v % PAGE);
    } else {
      assert v == 0x80_0000_0000 * b + (PAGE * (a % k) + v % PAGE);
    }
  }

  lemma Quotients(v: int)
    requires 0 <= v
    ensures v / 0x20_0000 == v / PAGE / 0x200
    ensures v / 0x4000_0000 == v / PAGE / 0x4_0000
    ensures v / 0x80_0000_0000 == v / PAGE / 0x800_0000
  {
    Quotient(v, 0x200);
    Quotient(v, 0x4_0000);
    Quotient(v, 0x800_0000);
  }

  /** Digit by digit: dropping the page offset and the bits above 47 changes no index. */
  lemma IndicesArePath(virtualAddr: u64)
    ensures Indices(virtualAddr) == Path(PageNumber(virtualAddr))
  {
    var p := virtualAddr / PAGE;
    var high := p / PAGE_NUMBERS;
    assert PageNumber(virtualAddr) == p - high * PAGE_NUMBERS;
    Quotients(virtualAddr);
    Wrapped0(p, high);
    Wrapped1(p, high);
    Wrapped2(p, high);
    Wrapped3(p, high);
  }

  lemma FromPath(p: int)
    requires 0 <= p < PAGE_NUMBERS
    ensures p == Path(p)[0] * 0x800_0000 + Path(p)[1] * 0x4_0000 + Path(p)[2] * 0x200 + Path(p)[3]
  {
  }

  /** The indices tell page numbers apart. */
  lemma PathIsInjective(p: int, q: int)
    requires 0 <= p < PAGE_NUMBERS && 0 <= q < PAGE_NUMBERS && Path(p) == Path(q)
    ensures p == q
  {
    assert Path(p)[0] == Path(q)[0] && Path(p)[1] == Path(q)[1];
    assert Path(p)[2] == Path(q)[2] && Path(p)[3] == Path(q)[3];
    FromPath(p);
    FromPath(q);
  }

  lemma LowBits(v: u64)
    ensures v % 0x1_0000_0000_0000 == PageNumber(v) * 0x1000 + v % 0x1000
  {
    var p := v / PAGE;
    var high := p / PAGE_NUMBERS;
    assert v == high * 0x1_0000_0000_0000 + (PageNumber(v) * 0x1000 + v % 0x1000);
  }

  /** The indices are bits 39 to 47, 30 to 38, 21 to 29 and 12 to 20 of the address. */
  lemma IndicesAreBits(virtualAddr: u64)
    ensures |Indices(virtualAddr)| == 4 && forall j | 0 <= j < 4 :: 0 <= Indices(virtualAddr)[j] < 512
    ensures var ks := Indices(virtualAddr);
      virtualAddr % 0x1_0000_0000_0000 ==
        ks[0] * 0x80_0000_0000 + ks[1] * 0x4000_0000 + ks[2] * 0x20_0000 + ks[3] * 0x1000 + virtualAddr % 0x1000
  {
    IndicesArePath(virtualAddr);
    FromPath(PageNumber(virtualAddr));
    LowBits(virtualAddr);
  }

  // ----- The radix tree -----

  function EmptyTable(): (t: Table)
    ensures forall i | 0 <= i < 512 :: t[i] == 0
  {
    seq(512, _ => 0)
  }

  /** shape gives each table the indices on the way to it from the root. A nonzero entry of
      a table above the last level is present and leads to the table one index further;
      so no table is reached in two ways. */
  ghost predicate WellFormed(mem: Memory, shape: map<int, seq<int>>, root: int) {
    && root in shape && shape[root] == []
    && (forall b | b in shape :: b in mem && b % PAGE == 0 && |shape[b]| <= 3)
    && (forall b, i {:trigger mem[b][i]} | b in shape && |shape[b]| < 3 && 0 <= i < 512 && mem[b][i] != 0 ::
          Present(mem[b][i]) && Base(mem[b][i]) in shape && shape[Base(mem[b][i])] == shape[b] + [i])
  }

  /** The frame found from table b with the indices ks, as getPageEntry and its caller walk: they
      take the base in an entry for the address of the next table. */
  ghost function Lookup(mem: Memory, b: int, ks: seq<int>): Option<u64>
    decreases |ks|
  {
    if ks == [] || b !in mem || !(0 <= ks[0] < 512) || !Present(mem[b][ks[0]]) then None
    else if |ks| == 1 then Some(Base(mem[b][ks[0]]))
    else Lookup(mem, Base(mem[b][ks[0]]), ks[1..])
  }

  /** ks leads from table b down to a page. */
  ghost predicate LeadsDown(shape: map<int, seq<int>>, b: int, ks: seq<int>) {
    b in shape && |shape[b]| + |ks| == 4 && ks != [] && forall j | 0 <= j < |ks| :: 0 <= ks[j] < 512
  }

  lemma StepDown(mem: Memory, shape: map<int, seq<int>>, root: int, b: int, ks: seq<int>)
    requires WellFormed(mem, shape, root) && LeadsDown(shape, b, ks) && 1 < |ks| && mem[b][ks[0]] != 0
    ensures LeadsDown(shape, Base(mem[b][ks[0]]), ks[1..])
    ensures shape[Base(mem[b][ks[0]])] + ks[1..] == shape[b] + ks
  {
    assert ks == [ks[0]] + ks[1..];
  }

  /** A new empty table under an empty entry. */
  ghost function WithTable(mem: Memory, b: int, i: int, table: int): Memory
    requires b in mem && 0 <= i < 512 && table % PAGE == 0 && 0 <= table < TWO_64
  {
    mem[b := mem[b][i := Entry(table)]][table := EmptyTable()]
  }

  lemma WithTableIsWellFormed(mem: Memory, shape: map<int, seq<int>>, root: int, b: int, i: int, table: int)
    requires WellFormed(mem, shape, root) && b in shape && |shape[b]| < 3 && 0 <= i < 512
    requires table !in mem && table % PAGE == 0 && 0 <= table < TWO_64
    ensures WellFormed(WithTable(mem, b, i, table), shape[table := shape[b] + [i]], root)
  {
    var m, s := WithTable(mem, b, i, table), shape[table := shape[b] + [i]];
    forall c, k | c in s && |s[c]| < 3 && 0 <= k < 512 && m[c][k] != 0
      ensures Present(m[c][k]) && Base(m[c][k]) in s && s[Base(m[c][k])] == s[c] + [k]
    {
      if c != table && !(c == b && k == i) {
        assert m[c][k] == mem[c][k];
      }
    }
  }

  /** A new empty table changes no translation. */
  lemma {:induction false} WithTableLooksTheSame(mem: Memory, shape: map<int, seq<int>>, root: int,
                                                b: int, i: int, table: int, c: int, ks: seq<int>)
    requires WellFormed(mem, shape, root) && b in shape && |shape[b]| < 3 && 0 <= i < 512 && mem[b][i] == 0
    requires table !in mem && table % PAGE == 0 && 0 <= table < TWO_64
    requires LeadsDown(shape, c, ks)
    ensures Lookup(WithTable(mem, b, i, table), c, ks) == Lookup(mem, c, ks)
    decreases |ks|
  {
    var m := WithTable(mem, b, i, table);
    if c == b && ks[0] == i {
      assert Lookup(m, table, ks[1..]) == None;
    } else {
      assert m[c][ks[0]] == mem[c][ks[0]];
      if Present(mem[c][ks[0]]) && 1 < |ks| {
        StepDown(mem, shape, root, c, ks);
        WithTableLooksTheSame(mem, shape, root, b, i, table, Base(mem[c][ks[0]]), ks[1..]);
      }
    }
  }

  lemma WithLeafIsWellFormed(mem: Memory, shape: map<int, seq<int>>, root: int, pt: int, i: int, e: u64)
    requires WellFormed(mem, shape, root) && pt in shape && |shape[pt]| == 3 && 0 <= i < 512
    ensures WellFormed(mem[pt := mem[pt][i := e]], shape, root)
  {
    var m := mem[pt := mem[pt][i := e]];
    forall c, k | c in shape && |shape[c]| < 3 && 0 <= k < 512 && m[c][k] != 0
      ensures Present(m[c][k]) && Base(m[c][k]) in shape && shape[Base(m[c][k])] == shape[c] + [k]
    {
      assert m[c][k] == mem[c][k];
    }
  }

  /** Writing a last-level entry changes the translation of that page only. */
  lemma {:induction false} WithLeafLooksTheSame(mem: Memory, shape: map<int, seq<int>>, root: int,
                                               pt: int, i: int, e: u64, c: int, ks: seq<int>)
    requires WellFormed(mem, shape, root) && pt in shape && |shape[pt]| == 3 && 0 <= i < 512
    requires LeadsDown(shape, c, ks) && shape[c] + ks != shape[pt] + [i]
    ensures Lookup(mem[pt := mem[pt][i := e]], c, ks) == Lookup(mem, c, ks)
    decreases |ks|
  {
    var m := mem[pt := mem[pt][i := e]];
    if c == pt {
      assert ks == [ks[0]];
    }
    assert m[c][ks[0]] == mem[c][ks[0]];
    if Present(mem[c][ks[0]]) && 1 < |ks| {
      StepDown(mem, shape, root, c, ks);
      WithLeafLooksTheSame(mem, shape, root, pt, i, e, Base(mem[c][ks[0]]), ks[1..]);
    }
  }

  /** Entry i of table b is present and leads to table c. */
  ghost predicate Links(mem: Memory, b: int, i: int, c: int) {
    b in mem && 0 <= i < 512 && Present(mem[b][i]) && Base(mem[b][i]) == c
  }

  lemma LookupThrough(mem: Memory, root: int, ks: seq<int>, pdpt: int, pd: int, pt: int)
    requires |ks| == 4 && 0 <= ks[3] < 512 && pt in mem
    requires Links(mem, root, ks[0], pdpt) && Links(mem, pdpt, ks[1], pd) && Links(mem, pd, ks[2], pt)
    ensures Lookup(mem, root, ks) == Leaf(mem[pt][ks[3]])
  {
    assert ks[1..][0] == ks[1] && ks[1..][1..][0] == ks[2] && ks[1..][1..][1..] == [ks[3]];
    assert Lookup(mem, root, ks) == Lookup(mem, pdpt, ks[1..]);
    assert Lookup(mem, pdpt, ks[1..]) == Lookup(mem, pd, ks[1..][1..]);
    assert Lookup(mem, pd, ks[1..][1..]) == Lookup(mem, pt, ks[1..][1..][1..]);
  }

  // ----- The flat map -----

  /** For each page number its frame, if it has one: what the tables stand for. */
  type FlatMap = seq<Option<u64>>

  ghost function Flat(mem: Memory, root: int): (flat: FlatMap)
    ensures |flat| == PAGE_NUMBERS
  {
    seq(PAGE_NUMBERS, p => Lookup(mem, root, Path(p)))
  }

  lemma PathLeadsDown(shape: map<int, seq<int>>, root: int, p: int)
    requires root in shape && shape[root] == [] && 0 <= p
    ensures LeadsDown(shape, root, Path(p))
  {
  }

  lemma WithTableKeepsFlat(mem: Memory, shape: map<int, seq<int>>, root: int, b: int, i: int, table: int)
    requires WellFormed(mem, shape, root) && b in shape && |shape[b]| < 3 && 0 <= i < 512 && mem[b][i] == 0
    requires table !in mem && table % PAGE == 0 && 0 <= table < TWO_64
    ensures Flat(WithTable(mem, b, i, table), root) == Flat(mem, root)
  {
    forall p | 0 <= p < PAGE_NUMBERS
      ensures Lookup(WithTable(mem, b, i, table), root, Path(p)) == Lookup(mem, root, Path(p))
    {
      PathLeadsDown(shape, root, p);
      WithTableLooksTheSame(mem, shape, root, b, i, table, root, Path(p));
    }
  }

  lemma WithLeafUpdatesFlat(mem: Memory, shape: map<int, seq<int>>, root: int, page: int, e: u64,
                            pdpt: int, pd: int, pt: int)
    requires WellFormed(mem, shape, root) && 0 <= page < PAGE_NUMBERS
    requires pt in shape && shape[pt] == Path(page)[..3]
    requires Links(mem, root, Path(page)[0], pdpt) && Links(mem, pdpt, Path(page)[1], pd)
    requires Links(mem, pd, Path(page)[2], pt)
    requires pdpt in shape && |shape[pdpt]| < 3 && pd in shape && |shape[pd]| < 3
    ensures Flat(mem[pt := mem[pt][page % 512 := e]], root) ==
      Flat(mem, root)[page := Leaf(e)]
  {
    var m := mem[pt := mem[pt][page % 512 := e]];
    LookupThrough(m, root, Path(page), pdpt, pd, pt);
    forall p | 0 <= p < PAGE_NUMBERS && p != page
      ensures Lookup(m, root, Path(p)) == Lookup(mem, root, Path(p))
    {
      PathLeadsDown(shape, root, p);
      if Path(p) == Path(page) { PathIsInjective(p, page); }
      assert shape[pt] + [page % 512] == Path(page);
      WithLeafLooksTheSame(mem, shape, root, pt, page % 512, e, root, Path(p));
    }
  }

  /** The address a flat map gives for a virtual address; 0 when the page is not mapped. */
  ghost function Translate(flat: FlatMap, virtualAddr: u64): int
    requires |flat| == PAGE_NUMBERS
  {
    match flat[PageNumber(virtualAddr)]
    case None => 0
    case Some(frame) => frame + virtualAddr % PAGE
  }

  /** After mapping v to p every address in v's page translates to p's frame plus its
      offset, and every address that differs from v in bits 12 to 47 as before. */
  lemma MapThenTranslate(flat: FlatMap, v: u64, p: u64, w: u64)
    requires |flat| == PAGE_NUMBERS
    ensures Translate(flat[PageNumber(v) := Some(Base(p))], w) ==
      if Indices(w) == Indices(v) then Base(p) + w % PAGE else Translate(flat, w)
  {
    IndicesArePath(v);
    IndicesArePath(w);
    if Indices(v) == Indices(w) {
      PathIsInjective(PageNumber(v), PageNumber(w));
    }
  }

  /** After unmapping v every address with v's indices gives NULL, and every other is as before. */
  lemma UnmapThenTranslate(flat: FlatMap, v: u64, w: u64)
    requires |flat| == PAGE_NUMBERS
    ensures Translate(flat[PageNumber(v) := None], w) == if Indices(w) == Indices(v) then 0 else Translate(flat, w)
  {
    IndicesArePath(v);
    IndicesArePath(w);
    if Indices(v) == Indices(w) {
      PathIsInjective(PageNumber(v), PageNumber(w));
    }
  }

  // ----- Ranges -----

  /** count pages from a page number on, mapped one after the other to frames from frame on. */
  ghost function MapRange(flat: FlatMap, page: int, frame: u64, count: nat): (after: FlatMap)
    requires |flat| == PAGE_NUMBERS && 0 <= page < PAGE_NUMBERS
    ensures |after| == PAGE_NUMBERS
    decreases count
  {
    if count == 0 then flat
    else MapRange(flat[page := Some(frame)], (page + 1) % PAGE_NUMBERS, (frame + PAGE) % TWO_64, count - 1)
  }

  ghost function UnmapRange(flat: FlatMap, page: int, count: nat): (after: FlatMap)
    requires |flat| == PAGE_NUMBERS && 0 <= page < PAGE_NUMBERS
    ensures |after| == PAGE_NUMBERS
    decreases count
  {
    if count == 0 then flat
    else UnmapRange(flat[page := None], (page + 1) % PAGE_NUMBERS, count - 1)
  }

  /** How many pages q lies behind a page, counting through the wrap-around. */
  function Behind(q: int, page: int): int {
    (q - page) % PAGE_NUMBERS
  }

  lemma BehindNext(q: int, page: int)
    requires 0 <= q < PAGE_NUMBERS && 0 <= page < PAGE_NUMBERS
    ensures Behind(q, (page + 1) % PAGE_NUMBERS) == if q == page then PAGE_NUMBERS - 1 else Behind(q, page) - 1
    ensures q != page ==> 0 < Behind(q, page)
    ensures Behind(page, page) == 0
  {
  }

  lemma FrameStep(frame: int, k: int)
    ensures ((frame + PAGE) % TWO_64 + (k - 1) * PAGE) % TWO_64 == (frame + k * PAGE) % TWO_64
  {
  }

  /** Page k of the range has frame k, and every page outside the range is as before. */
  lemma {:induction false} MapRangeAt(flat: FlatMap, page: int, frame: u64, count: nat, q: int)
    requires |flat| == PAGE_NUMBERS && 0 <= page < PAGE_NUMBERS && 0 <= q < PAGE_NUMBERS && count <= PAGE_NUMBERS
    ensures MapRange(flat, page, frame, count)[q] ==
      if Behind(q, page) < count then Some((frame + Behind(q, page) * PAGE) % TWO_64) else flat[q]
    decreases count
  {
    if count > 0 {
      BehindNext(q, page);
      MapRangeAt(flat[page := Some(frame)], (page + 1) % PAGE_NUMBERS, (frame + PAGE) % TWO_64, count - 1, q);
      if q != page {
        FrameStep(frame, Behind(q, page));
      }
    }
  }

  lemma {:induction false} UnmapRangeAt(flat: FlatMap, page: int, count: nat, q: int)
    requires |flat| == PAGE_NUMBERS && 0 <= page < PAGE_NUMBERS && 0 <= q < PAGE_NUMBERS && count <= PAGE_NUMBERS
    ensures UnmapRange(flat, page, count)[q] == if Behind(q, page) < count then None else flat[q]
    decreases count
  {
    if count > 0 {
      BehindNext(q, page);
      UnmapRangeAt(flat[page := None], (page + 1) % PAGE_NUMBERS, count - 1, q);
    }
  }

  /** Unmapping a range that was just mapped restores the map exactly when none of its
      pages was mapped before. */
  lemma UnmapAfterMap(flat: FlatMap, page: int, frame: u64, count: nat)
    requires |flat| == PAGE_NUMBERS && 0 <= page < PAGE_NUMBERS && count <= PAGE_NUMBERS
    ensures UnmapRange(MapRange(flat, page, frame, count), page, count) == flat <==>
      forall q | 0 <= q < PAGE_NUMBERS && Behind(q, page) < count :: flat[q] == None
  {
    var mapped := MapRange(flat, page, frame, count);
    var after := UnmapRange(mapped, page, count);
    forall q | 0 <= q < PAGE_NUMBERS
      ensures after[q] == if Behind(q, page) < count then None else flat[q]
    {
      MapRangeAt(flat, page, frame, count, q);
      UnmapRangeAt(mapped, page, count, q);
    }
  }

  lemma NextPage(v: u64)
    ensures PageNumber((v + PAGE) % TWO_64) == (PageNumber(v) + 1) % PAGE_NUMBERS
  {
    var a := v / PAGE;
    assert v + PAGE == (a + 1) * PAGE + v % PAGE;
    if v + PAGE < TWO_64 {
      assert (v + PAGE) / PAGE == a + 1;
    } else {
      assert a == 0xF_FFFF_FFFF_FFFF;
    }
  }

  lemma NextFrame(p: u64)
    ensures Base((p + PAGE) % TWO_64) == (Base(p) + PAGE) % TWO_64
  {
  }

  /** How many pages a loop from start up to end goes through. */
  function PagesUpTo(start: u64, end: u64): nat {
    if start < end then (end - start + PAGE - 1) / PAGE else 0
  }

  /** They hold the addresses up to end, and one page less does not. */
  lemma PagesCover(start: u64, end: u64)
    ensures if start < end then (PagesUpTo(start, end) - 1) * 0x1000 < end - start <= PagesUpTo(start, end) * 0x1000
            else PagesUpTo(start, end) == 0
  {
  }

  /** The loop from start up to end comes to an end: there is an address at or behind the end
      that it reaches before the addresses wrap around. */
  predicate Reaches(start: u64, end: u64) {
    start < end ==> end <= TWO_64 - PAGE + start % PAGE
  }

  /** Where the loop is after k pages. */
  function Visited(start: u64, k: nat): u64 {
    (start + k * PAGE) % TWO_64
  }

  lemma LastPage(v: u64)
    ensures v <= TWO_64 - PAGE + v % PAGE
  {
  }

  lemma SameOffset(x: int, k: int)
    ensures (x + k * PAGE) % PAGE == x % PAGE
  {
  }

  lemma OffsetStays(start: u64, k: nat)
    ensures Visited(start, k) % PAGE == start % PAGE
    ensures Visited(start, k) <= TWO_64 - PAGE + start % PAGE
  {
    var v, q := Visited(start, k), (start + k * PAGE) / TWO_64;
    assert v == start + (k - q * 0x10_0000_0000_0000) * PAGE;
    SameOffset(start, k - q * 0x10_0000_0000_0000);
    LastPage(v);
  }

  /** Otherwise all the addresses that it goes through, round and round, are below the end. */
  lemma LoopEnds(start: u64, end: u64)
    ensures Reaches(start, end) <==> exists k: nat :: end <= Visited(start, k)
  {
    if Reaches(start, end) {
      if start < end {
        var k := (TWO_64 - PAGE + start % PAGE - start) / PAGE;
        assert start + k * PAGE == TWO_64 - PAGE + start % PAGE;
        assert end <= Visited(start, k);
      } else {
        assert end <= Visited(start, 0);
      }
    } else {
      forall k: nat ensures Visited(start, k) < end {
        OffsetStays(start, k);
      }
    }
  }

  lemma OnePageLess(v: u64, end: u64)
    requires v < end && Reaches(v, end)
    ensures (v + PAGE) % TWO_64 == v + PAGE && Reaches(v + PAGE, end)
    ensures PagesUpTo(v, end) == 1 + PagesUpTo(v + PAGE, end)
  {
    SameOffset(v, 1);
  }

  // ----- Tables on the kernel heap -----

  /** Where the cells of the heap begin. */
  function HeapStart(hhdm: nat): nat {
    hhdm + 0x1_0000
  }

  /** The address of a block of the heap. */
  function HeapBlock(hhdm: nat, at: nat): nat {
    HeapStart(hhdm) + KernelHeap.HEAP_BLK_COUNT + at * KernelHeap.HEAP_BLK_SIZE
  }

  lemma OffPage(q: int, r: int)
    requires 0 < r < PAGE - 3
    ensures (PAGE * q + r) % PAGE == r && (PAGE * q + r + 3) % PAGE == r + 3
  {
  }

  lemma MultipleOfFour(k: int, address: int)
    requires address == 4 * k
    ensures address % 4 == 0
  {
  }

  lemma IsOdd(k: int, e: int)
    requires e == 2 * k + 1
    ensures e % 2 == 1
  {
  }

  /** No block of the kernel heap begins a page: the cells before the blocks take 16000 bytes,
      which leaves every block 128 bytes off a multiple of 256. An entry that is made from a
      block's address (whose low bits are clear) therefore leads to another address. */
  lemma HeapBlocksAreNotTables(hhdm: nat, at: nat)
    requires hhdm % PAGE == 0 && HeapBlock(hhdm, at) + 3 < TWO_64
    ensures HeapBlock(hhdm, at) % 4 == 0 && Present(HeapBlock(hhdm, at) + 3)
    ensures Base(HeapBlock(hhdm, at) + 3) == HeapStart(hhdm) + (62 + at) / 16 * PAGE
    ensures HeapStart(hhdm) <= Base(HeapBlock(hhdm, at) + 3) < HeapBlock(hhdm, at)
  {
    var pages, k, table := hhdm / PAGE, 62 + at, HeapBlock(hhdm, at);
    var q, r := pages + 16 + k / 16, k % 16 * 256 + 128;
    assert table == PAGE * q + r == 4 * (0x400 * (pages + 16) + 64 * k + 32);
    OffPage(q, r);
    MultipleOfFour(0x400 * (pages + 16) + 64 * k + 32, table);
    IsOdd(0x800 * (pages + 16) + 128 * k + 65, table + 3);
    assert Base(table + 3) == PAGE * q;
  }

  /** Memory word by word, by virtual address: the entries hold the addresses that kmalloc
      returns, and getPageEntry follows them as they are. */
  type Words = int -> u64

  /** The frame found from table b with the indices ks, word by word. */
  ghost function WalkWords(m: Words, b: int, ks: seq<int>): Option<u64>
    decreases |ks|, 0
  {
    if ks == [] then None else WalkOn(m, m(b + 8 * ks[0]), ks[1..])
  }

  /** The frame found behind an entry. */
  ghost function WalkOn(m: Words, e: u64, ks: seq<int>): Option<u64>
    decreases |ks|, 1
  {
    if !Present(e) then None else if ks == [] then Some(Base(e)) else WalkWords(m, Base(e), ks)
  }

  /** A word in which kmalloc marks cells. */
  predicate CellWord(hhdm: nat, a: int) {
    HeapStart(hhdm) < a + 8 && a < HeapStart(hhdm) + KernelHeap.HEAP_BLK_COUNT
  }

  /** A word that is written for an entry of b or of one of the tables ts. */
  ghost predicate EntryWord(b: int, ks: seq<int>, ts: seq<u64>, a: int)
    requires |ks| == |ts| + 1
  {
    a == b + 8 * ks[0] || exists k | 0 <= k < |ts| :: a == ts[k] + 8 * ks[k + 1]
  }

  /** Tables of 32768 bytes do not overlap. */
  predicate TablesApart(s: int, t: int) {
    s + 0x8000 <= t || t + 0x8000 <= s
  }

  /** The entry of new table k leads to the next one. */
  ghost predicate LeadsOn(m: Words, ks: seq<int>, ts: seq<u64>, k: nat)
    requires |ks| == |ts| + 1 && k + 1 < |ts| && ts[k + 1] + 3 < TWO_64
  {
    m(ts[k] + 8 * ks[k + 1]) == ts[k + 1] + 3
  }

  /** What mapping a page does from the first table b on that lacks an entry: the entries of b and
      of the new tables ts are written, and kmalloc marks its cells. */
  ghost predicate MapsThrough(m0: Words, m1: Words, b: int, ks: seq<int>, ts: seq<u64>, hhdm: nat, p: u64) {
    && |ks| == |ts| + 1 && ts != [] && (forall k | 0 <= k < |ts| :: ts[k] + 3 < TWO_64)
    && m1(b + 8 * ks[0]) == ts[0] + 3
    && (forall k | 0 <= k < |ts| - 1 :: LeadsOn(m1, ks, ts, k))
    && m1(ts[|ts| - 1] + 8 * ks[|ts|]) == Entry(Base(p))
    && forall a | !EntryWord(b, ks, ts, a) && !CellWord(hhdm, a) :: m1(a) == m0(a)
  }

  /** Blocks of 32768 bytes, as kmalloc gives them for the tables, do not overlap. */
  predicate BlocksApart(a: nat, b: nat) {
    a + 128 <= b || b + 128 <= a
  }

  lemma BlocksLieApart(hhdm: nat, a: nat, b: nat)
    requires BlocksApart(a, b)
    ensures TablesApart(HeapBlock(hhdm, a), HeapBlock(hhdm, b))
  {
  }

  /** A word in the page that a table lies in is none of those written for the entries. */
  lemma NotWritten(b: int, heap: nat, ts: seq<u64>, base: int, ks: seq<int>)
    requires |ks| == |ts| + 1 && ts != [] && forall j | 0 <= j < |ks| :: 0 <= ks[j] < 512
    requires heap <= base < ts[0] < base + PAGE && (b + PAGE <= heap || ts[0] + PAGE <= b)
    requires forall k | 1 <= k < |ts| :: TablesApart(ts[0], ts[k])
    ensures !EntryWord(b, ks, ts, base + 8 * ks[1])
  {
    var read := base + 8 * ks[1];
    forall k | 0 <= k < |ts| ensures read != ts[k] + 8 * ks[k + 1] {
      assert 0 <= ks[k + 1] < 512;
      assert k > 0 ==> TablesApart(ts[0], ts[k]);
    }
  }

  lemma ReadsAsBefore(m0: Words, m1: Words, b: int, ks: seq<int>, ts: seq<u64>, hhdm: nat, p: u64, read: int)
    requires MapsThrough(m0, m1, b, ks, ts, hhdm, p) && !EntryWord(b, ks, ts, read) && !CellWord(hhdm, read)
    ensures m1(read) == m0(read)
  {
  }

  lemma TwoLevels(m: Words, b: int, ks: seq<int>, e: u64, base: int)
    requires 2 <= |ks| && m(b + 8 * ks[0]) == e && Present(e) && base == Base(e)
    ensures WalkWords(m, b, ks) == WalkOn(m, m(base + 8 * ks[1]), ks[2..])
  {
    var rest := ks[1..];
    assert WalkWords(m, b, ks) == WalkOn(m, e, rest);
    assert rest != [] && WalkOn(m, e, rest) == WalkWords(m, base, rest);
    assert rest[0] == ks[1] && rest[1..] == ks[2..];
  }

  lemma MappedThrough(m0: Words, m1: Words, b: int, ks: seq<int>, ts: seq<u64>, hhdm: nat, p: u64, e: u64, base: int)
    requires MapsThrough(m0, m1, b, ks, ts, hhdm, p) && forall j | 0 <= j < |ks| :: 0 <= ks[j] < 512
    requires e == ts[0] + 3 && Present(e) && base == Base(e) && HeapStart(hhdm) <= base < ts[0] < base + PAGE
    requires b + PAGE <= HeapStart(hhdm) || ts[0] + PAGE <= b
    requires forall k | 1 <= k < |ts| :: TablesApart(ts[0], ts[k])
    requires !CellWord(hhdm, base + 8 * ks[1])
    ensures WalkWords(m1, b, ks) == WalkOn(m1, m0(base + 8 * ks[1]), ks[2..])
  {
    NotWritten(b, HeapStart(hhdm), ts, base, ks);
    ReadsAsBefore(m0, m1, b, ks, ts, hhdm, p, base + 8 * ks[1]);
    TwoLevels(m1, b, ks, e, base);
  }

  /** Only the first two blocks begin in a page with cells. */
  lemma PageOfBlock(hhdm: nat, at: nat) returns (e: u64, base: int)
    requires hhdm % PAGE == 0 && HeapBlock(hhdm, at) + 3 < TWO_64
    ensures e == HeapBlock(hhdm, at) + 3 && Present(e) && Base(e) == base
    ensures HeapStart(hhdm) <= base < HeapBlock(hhdm, at) < base + PAGE
    ensures 2 <= at ==> HeapStart(hhdm) + KernelHeap.HEAP_BLK_COUNT <= base
  {
    HeapBlocksAreNotTables(hhdm, at);
    e := HeapBlock(hhdm, at) + 3;
    base := HeapStart(hhdm) + (62 + at) / 16 * PAGE;
  }

  ghost function HeapTables(hhdm: nat, at: seq<nat>): (ts: seq<u64>)
    requires forall k | 0 <= k < |at| :: HeapBlock(hhdm, at[k]) + 3 < TWO_64
    ensures |ts| == |at| && forall k | 0 <= k < |ts| :: ts[k] == HeapBlock(hhdm, at[k])
  {
    seq(|at|, k requires 0 <= k < |at| => HeapBlock(hhdm, at[k]))
  }

  lemma ApartFromFirst(hhdm: nat, at: seq<nat>)
    requires at != [] && forall k | 0 <= k < |at| :: HeapBlock(hhdm, at[k]) + 3 < TWO_64
    requires forall k | 1 <= k < |at| :: BlocksApart(at[0], at[k])
    ensures var ts := HeapTables(hhdm, at); forall k | 1 <= k < |ts| :: TablesApart(ts[0], ts[k])
  {
    forall k | 1 <= k < |at| ensures TablesApart(HeapBlock(hhdm, at[0]), HeapBlock(hhdm, at[k])) {
      BlocksLieApart(hhdm, at[0], at[k]);
    }
  }

  /** A page that is mapped through new tables on the heap is looked up through the word that is
      taken for the entry of the first of them, and map_page did not write that, nor did kmalloc,
      unless the table is in one of the first two blocks. When it is not a present entry, the
      page is not mapped. */
  lemma MappedThroughHeap(m0: Words, m1: Words, b: int, ks: seq<int>, hhdm: nat, at: seq<nat>, p: u64)
    returns (e: u64, read: int)
    requires hhdm % PAGE == 0 && at != [] && forall k | 0 <= k < |at| :: HeapBlock(hhdm, at[k]) + 3 < TWO_64
    requires forall k | 1 <= k < |at| :: BlocksApart(at[0], at[k])
    requires |ks| == |at| + 1 && forall j | 0 <= j < |ks| :: 0 <= ks[j] < 512
    requires b + PAGE <= HeapStart(hhdm) || HeapBlock(hhdm, at[0]) + PAGE <= b
    requires MapsThrough(m0, m1, b, ks, HeapTables(hhdm, at), hhdm, p)
    ensures e == HeapBlock(hhdm, at[0]) + 3 && read == Base(e) + 8 * ks[1]
    ensures !CellWord(hhdm, read) ==> WalkWords(m1, b, ks) == WalkOn(m1, m0(read), ks[2..])
    ensures 2 <= at[0] ==> !CellWord(hhdm, read)
  {
    var base;
    e, base := PageOfBlock(hhdm, at[0]);
    read := base + 8 * ks[1];
    if !CellWord(hhdm, read) {
      ApartFromFirst(hhdm, at);
      MappedThrough(m0, m1, b, ks, HeapTables(hhdm, at), hhdm, p, e, base);
    }
  }

  // ----- The tables in memory -----

  class AddressSpace {
    const cr3: u64
    var mem: Memory

    // the addresses that kmalloc will hand out for new tables, in order
    var pool: seq<int>

    ghost var shape: map<int, seq<int>>

    function Root(): int {
      Base(cr3)
    }

    /** Fresh tables are page aligned and overlap no table in use; the code relies on
        that without asking for it. */
    ghost predicate Valid()
      reads this
    {
      && WellFormed(mem, shape, Root())
      && (forall k | 0 <= k < |pool| :: pool[k] !in mem && pool[k] % PAGE == 0 && 0 <= pool[k] < TWO_64)
      && (forall j, k | 0 <= j < k < |pool| :: pool[j] != pool[k])
    }

    ghost function Map(): FlatMap
      reads this
    {
      Flat(mem, Root())
    }

    /** Every page that the tables lead to can be written. */
    ghost predicate AllWritable()
      reads this
    {
      forall b, i {:trigger mem[b][i]} | b in mem && 0 <= i < 512 :: Writable(mem[b][i])
    }

    /** The tables that are in use already, whatever they map. */
    constructor (cr3: u64, mem: Memory, ghost shape: map<int, seq<int>>, pool: seq<int>)
      requires WellFormed(mem, shape, Base(cr3))
      requires forall k | 0 <= k < |pool| :: pool[k] !in mem && pool[k] % PAGE == 0 && 0 <= pool[k] < TWO_64
      requires forall j, k | 0 <= j < k < |pool| :: pool[j] != pool[k]
      ensures Valid() && Map() == Flat(mem, Base(cr3)) && this.pool == pool
    {
      this.cr3, this.pool, this.mem, this.shape := cr3, pool, mem, shape;
    }

    /** A zeroed table from kmalloc. */
    method AllocateTable() returns (table: int)
      requires pool != []
      modifies this`mem, this`pool
      ensures table == old(pool[0]) && pool == old(pool)[1..] && mem == old(mem)[table := EmptyTable()]
    {
      table := pool[0];
      pool := pool[1..];
      mem := mem[table := EmptyTable()];
    }

    /** The table under entry i of table b, made if the entry is empty. */
    method NextTable(b: int, i: int) returns (next: int)
      requires Valid() && pool != [] && b in shape && |shape[b]| < 3 && 0 <= i < 512
      modifies this`mem, this`pool, this`shape
      ensures Valid() && Map() == old(Map()) && |pool| >= old(|pool|) - 1
      ensures next in shape && shape[next] == old(shape[b]) + [i] && Links(mem, b, i, next)
      ensures forall c | c in old(shape) :: c in shape && shape[c] == old(shape[c])
      ensures old(AllWritable()) ==> AllWritable()
      ensures forall c, k, d | c in old(shape) && Links(old(mem), c, k, d) && d in old(shape) :: Links(mem, c, k, d)
    {
      if mem[b][i] == 0 {
        ghost var mem0, shape0 := mem, shape;
        next := AllocateTable();
        mem := mem[b := mem[b][i := Entry(next)]];
        shape := shape[next := shape[b] + [i]];
        EntryIsWritable(next);
        assert mem == WithTable(mem0, b, i, next);
        WithTableIsWellFormed(mem0, shape0, Root(), b, i, next);
        WithTableKeepsFlat(mem0, shape0, Root(), b, i, next);
      } else {
        next := Base(mem[b][i]);
      }
    }

    /** Writes the last-level entry of an address whose tables are there. */
    method WriteLeaf(ghost virtualAddr: u64, ghost pdpt: int, ghost pd: int, pt: int, offset: int, e: u64)
      requires Valid() && pdpt in shape && pd in shape && pt in shape
      requires offset == Indices(virtualAddr)[3] && shape[pt] == Indices(virtualAddr)[..3]
      requires |shape[pdpt]| < 3 && |shape[pd]| < 3
      requires Links(mem, Root(), Indices(virtualAddr)[0], pdpt) && Links(mem, pdpt, Indices(virtualAddr)[1], pd)
      requires Links(mem, pd, Indices(virtualAddr)[2], pt)
      modifies this`mem
      ensures Valid()
      ensures Map() == old(Map())[PageNumber(virtualAddr) := Leaf(e)]
      ensures old(AllWritable()) && Writable(e) ==> AllWritable()
    {
      IndicesArePath(virtualAddr);
      WithLeafIsWellFormed(mem, shape, Root(), pt, offset, e);
      WithLeafUpdatesFlat(mem, shape, Root(), PageNumber(virtualAddr), e, pdpt, pd, pt);
      mem := mem[pt := mem[pt][offset := e]];
    }

    method MapPage(virtualAddr: u64, physicalAddress: u64)
      requires Valid() && 3 <= |pool|
      modifies this`mem, this`pool, this`shape
      ensures Valid() && |pool| >= old(|pool|) - 3
      ensures Map() == old(Map())[PageNumber(virtualAddr) := Some(Base(physicalAddress))]
      ensures old(AllWritable()) ==> AllWritable()
    {
      var ptOffset := virtualAddr / 0x1000 % 512;
      var pdOffset := virtualAddr / 0x20_0000 % 512;
      var pdptOffset := virtualAddr / 0x4000_0000 % 512;
      var pm4ltOffset := virtualAddr / 0x80_0000_0000 % 512;
      var pdpt := NextTable(Root(), pm4ltOffset);
      var pd := NextTable(pdpt, pdptOffset);
      var pt := NextTable(pd, pdOffset);
      EntryIsWritable(Base(physicalAddress));
      WriteLeaf(virtualAddr, pdpt, pd, pt, ptOffset, Entry(Base(physicalAddress)));
    }

    /** The last-level table for an address, if all tables above it are there. */
    method GetPageEntry(virtualAddr: u64) returns (found: bool, pt: int, ghost pdpt: int, ghost pd: int)
      requires Valid()
      ensures found ==> pdpt in shape && pd in shape && pt in shape && |shape[pdpt]| < 3 && |shape[pd]| < 3
      ensures found ==> shape[pt] == Indices(virtualAddr)[..3] && Links(mem, Root(), Indices(virtualAddr)[0], pdpt)
      ensures found ==> Links(mem, pdpt, Indices(virtualAddr)[1], pd) && Links(mem, pd, Indices(virtualAddr)[2], pt)
      ensures found ==> Map()[PageNumber(virtualAddr)] == Leaf(mem[pt][Indices(virtualAddr)[3]])
      ensures !found ==> Map()[PageNumber(virtualAddr)] == None
    {
      ghost var ks := Indices(virtualAddr);
      IndicesArePath(virtualAddr);
      var pdOffset := virtualAddr / 0x20_0000 % 512;
      var pdptOffset := virtualAddr / 0x4000_0000 % 512;
      var pm4ltOffset := virtualAddr / 0x80_0000_0000 % 512;
      pt, pdpt, pd := 0, 0, 0;
      var pm4le := mem[Root()][pm4ltOffset];
      if !Present(pm4le) { return false, pt, pdpt, pd; }
      var pdptAddr := Base(pm4le);
      pdpt := pdptAddr;
      var pdpte := mem[pdptAddr][pdptOffset];
      assert ks[1..][0] == ks[1] && Lookup(mem, Root(), ks) == Lookup(mem, pdpt, ks[1..]);
      if !Present(pdpte) { return false, pt, pdpt, pd; }
      var pdAddr := Base(pdpte);
      pd := pdAddr;
      var pde := mem[pdAddr][pdOffset];
      assert ks[1..][1..][0] == ks[2] && Lookup(mem, pdpt, ks[1..]) == Lookup(mem, pd, ks[1..][1..]);
      if !Present(pde) { return false, pt, pdpt, pd; }
      pt := Base(pde);
      found := true;
      LookupThrough(mem, Root(), ks, pdpt, pd, pt);
    }

    /** The physical address of a virtual one; NULL when its page is not mapped. */
    method GetPhysicalAddress(virtualAddr: u64) returns (r: int)
      requires Valid()
      ensures r == Translate(Map(), virtualAddr)
      ensures match Map()[PageNumber(virtualAddr)]
              case None => r == 0
              case Some(frame) => r == frame + virtualAddr % 0x1000
    {
      var pageOffset := virtualAddr / 0x1000 % 512;
      var found, page, _, _ := GetPageEntry(virtualAddr);
      if !found { return 0; }
      if !Present(mem[page][pageOffset]) { return 0; }
      return Base(mem[page][pageOffset]) + virtualAddr % PAGE;
    }

    method UnmapPage(virtualAddr: u64)
      requires Valid()
      modifies this`mem
      ensures Valid() && (old(AllWritable()) ==> AllWritable())
      ensures Map() == old(Map())[PageNumber(virtualAddr) := None]
    {
      var found, pageTable, pdpt, pd := GetPageEntry(virtualAddr);
      if !found { return; }
      var offset := virtualAddr / 0x1000 % 512;
      WriteLeaf(virtualAddr, pdpt, pd, pageTable, offset, 0);
    }

    /** Maps count pages. The loop counter is a signed 32-bit integer. */
    method MapPages(startVirtualAddr: u64, startPhysicalAddr: u64, count: nat)
      requires Valid() && count < 0x8000_0000 && 3 * count <= |pool|
      modifies this`mem, this`pool, this`shape
      ensures Valid() && (old(AllWritable()) ==> AllWritable())
      ensures Map() == MapRange(old(Map()), PageNumber(startVirtualAddr), Base(startPhysicalAddr), count)
    {
      var v: u64, p: u64 := startVirtualAddr, startPhysicalAddr;
      for i := 0 to count
        invariant Valid() && 3 * (count - i) <= |pool| && (old(AllWritable()) ==> AllWritable())
        invariant MapRange(Map(), PageNumber(v), Base(p), count - i)
          == MapRange(old(Map()), PageNumber(startVirtualAddr), Base(startPhysicalAddr), count)
      {
        MapPage(v, p);
        NextPage(v);
        NextFrame(p);
        v, p := (v + PAGE) % TWO_64, (p + PAGE) % TWO_64;
      }
    }

    /** Maps the pages up to, but not including, the end addresses. */
    method MapPagesUpTo(startVirtualAddr: u64, endVirtualAddr: u64, startPhysicalAddr: u64, endPhysicalAddr: u64)
      requires (startVirtualAddr - endVirtualAddr) % TWO_64 == (startPhysicalAddr - endPhysicalAddr) % TWO_64
      requires Reaches(startVirtualAddr, endVirtualAddr)
      requires Valid() && 3 * PagesUpTo(startVirtualAddr, endVirtualAddr) <= |pool|
      modifies this`mem, this`pool, this`shape
      ensures Valid() && (old(AllWritable()) ==> AllWritable())
      ensures Map() == MapRange(old(Map()), PageNumber(startVirtualAddr), Base(startPhysicalAddr),
                                PagesUpTo(startVirtualAddr, endVirtualAddr))
    {
      var v: u64, p: u64 := startVirtualAddr, startPhysicalAddr;
      while v < endVirtualAddr
        invariant Valid() && 3 * PagesUpTo(v, endVirtualAddr) <= |pool| && Reaches(v, endVirtualAddr)
        invariant old(AllWritable()) ==> AllWritable()
        invariant MapRange(Map(), PageNumber(v), Base(p), PagesUpTo(v, endVirtualAddr))
          == MapRange(old(Map()), PageNumber(startVirtualAddr), Base(startPhysicalAddr),
                      PagesUpTo(startVirtualAddr, endVirtualAddr))
        decreases endVirtualAddr - v
      {
        MapPage(v, p);
        NextPage(v);
        NextFrame(p);
        OnePageLess(v, endVirtualAddr);
        v, p := (v + PAGE) % TWO_64, (p + PAGE) % TWO_64;
      }
    }

    method UnmapPages(startVirtualAddr: u64, endVirtualAddr: u64)
      requires Valid() && Reaches(startVirtualAddr, endVirtualAddr)
      modifies this`mem
      ensures Valid() && (old(AllWritable()) ==> AllWritable())
      ensures Map() == UnmapRange(old(Map()), PageNumber(startVirtualAddr), PagesUpTo(startVirtualAddr, endVirtualAddr))
    {
      var v: u64 := startVirtualAddr;
      while v < endVirtualAddr
        invariant Valid() && Reaches(v, endVirtualAddr) && (old(AllWritable()) ==> AllWritable())
        invariant UnmapRange(Map(), PageNumber(v), PagesUpTo(v, endVirtualAddr))
          == UnmapRange(old(Map()), PageNumber(startVirtualAddr), PagesUpTo(startVirtualAddr, endVirtualAddr))
        decreases endVirtualAddr - v
      {
        UnmapPage(v);
        NextPage(v);
        OnePageLess(v, endVirtualAddr);
        v := (v + PAGE) % TWO_64;
      }
    }
  }
}
