/** The kernel's string class, lists of strings, and cutting a string at a character. */
module Strings {
  import opened Machine

  const NUL: byte := 0

  // ----- Copies that stop at a NUL -----

  ghost predicate NulFree(s: seq<byte>) {
    forall i | 0 <= i < |s| :: s[i] != NUL
  }

  function Zeros(n: nat): (z: seq<byte>)
    ensures |z| == n && forall i | 0 <= i < n :: z[i] == NUL
  {
    seq(n, _ => NUL)
  }

  /** The number of characters in front of the first NUL. */
  ghost function Length(s: seq<byte>): (n: nat)
    ensures n <= |s| && NulFree(s[..n]) && (n < |s| ==> s[n] == NUL)
  {
    if s == [] || s[0] == NUL then 0 else 1 + Length(s[1..])
  }

  /** What strcpy makes of a string in zeroed memory. */
  ghost function Cut(s: seq<byte>): (t: seq<byte>)
    ensures |t| == |s| && forall i | 0 <= i < |s| :: t[i] == if i < Length(s) then s[i] else NUL
  {
    s[..Length(s)] + Zeros(|s| - Length(s))
  }

  /** Behind the first NUL there are only NULs, so that a copy is the same. */
  ghost predicate Settled(s: seq<byte>) {
    Cut(s) == s
  }

  lemma NulFreeIsSettled(s: seq<byte>)
    requires NulFree(s)
    ensures Settled(s)
  {
  }

  lemma {:induction false} LengthIs(s: seq<byte>, n: nat)
    requires n <= |s| && NulFree(s[..n]) && (n < |s| ==> s[n] == NUL)
    ensures Length(s) == n
  {
    var m := Length(s);
    forall i | 0 <= i < |s| ensures (i < n ==> s[i] != NUL) && (i < m ==> s[i] != NUL) {
      assert i < n ==> s[..n][i] == s[i];
      assert i < m ==> s[..m][i] == s[i];
    }
  }

  /** A character that is no NUL, with none in front, is in front of the first NUL. */
  lemma FrontIsNulFree(s: seq<byte>, i: nat)
    requires i <= Length(s) && (i < |s| ==> s[i] != NUL)
    ensures i < |s| ==> i < Length(s)
  {
  }

  lemma AtLength(s: seq<byte>, i: nat)
    requires i <= Length(s) && (i < |s| ==> s[i] == NUL)
    ensures i == Length(s)
  {
    forall k | 0 <= k < Length(s) ensures s[k] != NUL {
      assert s[..Length(s)][k] == s[k];
    }
  }

  /** Copies from one buffer to the other up to the first NUL, which itself is not copied.
      Some index n of the source holds one. */
  method Strcpy(dest: array<byte>, src: array<byte>, ghost n: nat)
    requires n < src.Length && src[n] == NUL && Length(src[..n]) <= dest.Length && dest != src
    modifies dest
    ensures dest[..Length(src[..n])] == src[..Length(src[..n])]
    ensures forall k | Length(src[..n]) <= k < dest.Length :: dest[k] == old(dest[k])
  {
    ghost var length := Length(src[..n]);
    var i := 0;
    while src[i] != NUL
      invariant 0 <= i <= length
      invariant forall k | 0 <= k < i :: dest[k] == src[k]
      invariant forall k | i <= k < dest.Length :: dest[k] == old(dest[k])
      decreases n - i
    {
      FrontIsNulFree(src[..n], i);
      dest[i] := src[i];
      i := i + 1;
    }
    AtLength(src[..n], i);
  }

  // ----- Strings -----

  /** A string as a value: its characters, and how many fit before it must grow. */
  datatype Text = Text(chars: seq<byte>, capacity: nat)

  const EMPTY: Text := Text([], 10)

  /** A string that is full moves to a larger buffer first, as far as strcpy takes it. */
  ghost function Pushed(t: Text, c: byte): Text {
    if |t.chars| + 1 >= t.capacity then Text(Cut(t.chars) + [c], t.capacity * 2 + 1)
    else Text(t.chars + [c], t.capacity)
  }

  ghost function Copied(t: Text): Text {
    t.(chars := Cut(t.chars))
  }

  class String {
    var data: array<byte>
    var size: nat
    var maxCapacity: nat

    /** A NUL stands behind the last character. */
    ghost predicate Valid()
      reads this, data
    {
      size <= maxCapacity && data.Length == maxCapacity + 1 && data[size] == NUL
    }

    ghost function Value(): Text
      requires Valid()
      reads this, data
    {
      Text(data[..size], maxCapacity)
    }

    constructor ()
      ensures Valid() && Value() == EMPTY && fresh(data)
    {
      size, maxCapacity, data := 0, 10, new byte[11](_ => NUL);
    }

    constructor Copy(other: String)
      requires other.Valid()
      ensures Valid() && Value() == Copied(other.Value()) && fresh(data)
    {
      size, maxCapacity := other.size, other.maxCapacity;
      var newData := new byte[other.maxCapacity + 1](_ => NUL);
      Strcpy(newData, other.data, other.size);
      data := newData;
    }

    /** Moves the characters, up to a NUL, to a new buffer. */
    method Resize(requested: nat)
      requires Valid() && size <= requested
      modifies this
      ensures Valid() && fresh(data) && Value() == Text(Cut(old(Value()).chars), requested)
    {
      var newData := new byte[requested + 1](_ => NUL);
      Strcpy(newData, data, size);
      maxCapacity, data := requested, newData;
    }

    method PushBack(c: byte)
      requires Valid()
      modifies this, data
      ensures Valid() && Value() == Pushed(old(Value()), c)
      ensures maxCapacity == if old(size + 1 < maxCapacity) then old(maxCapacity) else old(maxCapacity) * 2 + 1
      ensures data == old(data) || fresh(data)
    {
      if size + 1 >= maxCapacity {
        Resize(maxCapacity * 2 + 1);
      }
      data[size] := c;
      size := size + 1;
      data[size] := NUL;
    }
  }

  // ----- Lists of strings -----

  /** A list of strings as a value. */
  datatype Texts = Texts(items: seq<Text>, capacity: nat)

  ghost function AllCopied(items: seq<Text>): (copies: seq<Text>)
    ensures |copies| == |items|
  {
    seq(|items|, i requires 0 <= i < |items| => Copied(items[i]))
  }

  /** The list with a copy of a string behind the others; growing copies those too. */
  ghost function Added(ts: Texts, t: Text): Texts {
    if |ts.items| >= ts.capacity then Texts(AllCopied(ts.items) + [Copied(t)], ts.capacity * 2 + 1)
    else Texts(ts.items + [Copied(t)], ts.capacity)
  }

  /** The list with a character behind its last string. */
  ghost function Grown(ts: Texts, c: byte): Texts
    requires ts.items != []
  {
    var last := |ts.items| - 1;
    ts.(items := ts.items[last := Pushed(ts.items[last], c)])
  }

  /** The strings are different objects with different buffers. */
  ghost predicate AllApart(es: seq<String>)
    reads es
  {
    forall i, j | 0 <= i < j < |es| :: es[i] != es[j] && es[i].data != es[j].data
  }

  lemma ApartMore(es: seq<String>, e: String)
    requires AllApart(es) && forall x | x in es :: x != e && x.data != e.data
    ensures AllApart(es + [e])
  {
    var more := es + [e];
    forall i, j | 0 <= i < j < |more| ensures more[i] != more[j] && more[i].data != more[j].data {
      assert more[i] == es[i] && es[i] in es;
    }
  }

  /** The growable list of strings, which it holds as objects of its own. */
  class StringList {
    var entries: seq<String>
    var maxCapacity: nat

    ghost predicate Valid()
      reads this, entries, set e | e in entries :: e.data
    {
      && |entries| <= maxCapacity
      && (forall i | 0 <= i < |entries| :: entries[i].Valid())
      && AllApart(entries)
    }

    ghost function Value(): Texts
      requires Valid()
      reads this, entries, set e | e in entries :: e.data
    {
      Texts(seq(|entries|, i requires 0 <= i < |entries| reads this, entries, set e | e in entries :: e.data
                             requires Valid() => entries[i].Value()), maxCapacity)
    }

    constructor ()
      ensures Valid() && Value() == Texts([], 10) && entries == []
    {
      entries, maxCapacity := [], 10;
    }

    method CopyAll() returns (copies: seq<String>)
      requires Valid()
      ensures |copies| == |entries|
      ensures forall k | 0 <= k < |copies| :: fresh(copies[k]) && fresh(copies[k].data)
      ensures forall k | 0 <= k < |copies| :: copies[k].Valid() && copies[k].Value() == Copied(entries[k].Value())
      ensures AllApart(copies)
    {
      copies := [];
      for i := 0 to |entries|
        invariant |copies| == i
        invariant forall k | 0 <= k < i :: fresh(copies[k]) && fresh(copies[k].data)
        invariant forall k | 0 <= k < i :: copies[k].Valid() && copies[k].Value() == Copied(entries[k].Value())
        invariant AllApart(copies)
      {
        var copy := new String.Copy(entries[i]);
        ApartMore(copies, copy);
        copies := copies + [copy];
      }
    }

    /** Copies the strings to a longer array. */
    method Resize(requested: nat)
      requires Valid() && |entries| <= requested
      modifies this
      ensures Valid() && Value() == Texts(AllCopied(old(Value()).items), requested)
      ensures forall e | e in entries :: fresh(e) && fresh(e.data)
    {
      var copies := CopyAll();
      entries, maxCapacity := copies, requested;
    }

    method Attach(copy: String)
      requires Valid() && |entries| < maxCapacity
      requires copy.Valid() && forall e | e in entries :: e != copy && e.data != copy.data
      modifies this`entries
      ensures Valid() && entries == old(entries) + [copy]
      ensures Value() == old(Value()).(items := old(Value()).items + [copy.Value()])
    {
      ApartMore(entries, copy);
      entries := entries + [copy];
    }

    /** Puts a copy of a string behind the others. */
    method PushBack(s: String)
      requires Valid() && s.Valid()
      modifies this
      ensures Valid() && Value() == Added(old(Value()), old(s.Value()))
      ensures maxCapacity == if old(|entries| < maxCapacity) then old(maxCapacity) else old(maxCapacity) * 2 + 1
      ensures forall e | e in entries :: (e in old(entries) && e.data == old(e.data)) || (fresh(e) && fresh(e.data))
    {
      if |entries| >= maxCapacity {
        Resize(maxCapacity * 2 + 1);
      }
      var copy := new String.Copy(s);
      Attach(copy);
    }

    /** Puts a character behind the last string, in place. */
    method GrowLast(c: byte)
      requires Valid() && entries != []
      modifies entries[|entries| - 1], entries[|entries| - 1].data
      ensures Valid() && Value() == Grown(old(Value()), c) && entries == old(entries)
      ensures forall e | e in entries :: e.data == old(e.data) || fresh(e.data)
    {
      entries[|entries| - 1].PushBack(c);
    }
  }

  // ----- Cutting a string at a character -----

  type Pieces = ps: seq<seq<byte>> | |ps| >= 1 witness [[]]

  ghost function AddToLast(ps: Pieces, t: seq<byte>): (qs: Pieces)
    ensures |qs| == |ps|
  {
    ps[..|ps| - 1] + [ps[|ps| - 1] + t]
  }

  /** Every c starts a new piece; every other character goes to the last one. */
  ghost function Split(s: seq<byte>, c: byte): Pieces {
    if s == [] then [[]]
    else
      var before, x := Split(s[..|s| - 1], c), s[|s| - 1];
      if x == c then before + [[]] else AddToLast(before, [x])
  }

  ghost function Join(ps: Pieces, c: byte): seq<byte> {
    if |ps| == 1 then ps[0] else Join(ps[..|ps| - 1], c) + [c] + ps[|ps| - 1]
  }

  ghost predicate Free(s: seq<byte>, c: byte) {
    forall i | 0 <= i < |s| :: s[i] != c
  }

  ghost predicate AllFree(ps: seq<seq<byte>>, c: byte) {
    forall i | 0 <= i < |ps| :: Free(ps[i], c)
  }

  lemma {:induction false} JoinOfMore(ps: Pieces, t: seq<byte>, c: byte)
    ensures Join(ps + [t], c) == Join(ps, c) + [c] + t
    ensures Join(AddToLast(ps, t), c) == Join(ps, c) + t
  {
    assert (ps + [t])[..|ps|] == ps;
    assert AddToLast(ps, t)[..|ps| - 1] == ps[..|ps| - 1];
  }

  lemma {:induction false} PiecesAreFree(s: seq<byte>, c: byte)
    ensures AllFree(Split(s, c), c)
    decreases |s|
  {
    if s != [] {
      PiecesAreFree(s[..|s| - 1], c);
    }
  }

  /** Putting c between the pieces gives the string back. */
  lemma {:induction false} JoinOfSplit(s: seq<byte>, c: byte)
    ensures Join(Split(s, c), c) == s
    decreases |s|
  {
    if s != [] {
      var front, x := s[..|s| - 1], s[|s| - 1];
      var before := Split(front, c);
      JoinOfSplit(front, c);
      assert s == front + [x];
      if x == c {
        JoinOfMore(before, [], c);
      } else {
        JoinOfMore(before, [x], c);
      }
    }
  }

  lemma {:induction false} SplitOfMore(s: seq<byte>, t: seq<byte>, c: byte)
    requires Free(t, c)
    ensures Split(s + t, c) == AddToLast(Split(s, c), t)
    decreases |t|
  {
    if t == [] {
      var ps := Split(s, c);
      assert s + t == s && ps[|ps| - 1] + [] == ps[|ps| - 1] && t == [];
    } else {
      var front := t[..|t| - 1];
      assert (s + t)[..|s + t| - 1] == s + front;
      SplitOfMore(s, front, c);
      assert Split(s, c)[|Split(s, c)| - 1] + front + [t[|t| - 1]] == Split(s, c)[|Split(s, c)| - 1] + t;
    }
  }

  /** There is no other way to cut the string: pieces without c come back from their join. */
  lemma {:induction false} SplitOfJoin(ps: Pieces, c: byte)
    requires AllFree(ps, c)
    ensures Split(Join(ps, c), c) == ps
    decreases |ps|
  {
    var last := ps[|ps| - 1];
    if |ps| == 1 {
      SplitOfMore([], last, c);
      assert [] + last == last && [] + [last] == ps;
    } else {
      var front := ps[..|ps| - 1];
      SplitOfJoin(front, c);
      var s := Join(front, c) + [c];
      assert s[..|s| - 1] == Join(front, c);
      SplitOfMore(s, last, c);
      assert (front + [[]])[..|front|] == front && [] + last == last;
      assert front + [last] == ps;
    }
  }

  ghost function Occurrences(s: seq<byte>, c: byte): nat {
    multiset(s)[c]
  }

  lemma {:induction false} PiecesCount(s: seq<byte>, c: byte)
    ensures |Split(s, c)| == Occurrences(s, c) + 1
    decreases |s|
  {
    if s != [] {
      PiecesCount(s[..|s| - 1], c);
      assert s == s[..|s| - 1] + [s[|s| - 1]];
    }
  }

  // ----- Cutting with strings that grow and move -----

  /** The strings that the loop builds. */
  ghost function SplitRun(s: seq<byte>, c: byte): (ts: Texts)
    ensures ts.items != []
  {
    if s == [] then Added(Texts([], 10), EMPTY)
    else
      var before, x := SplitRun(s[..|s| - 1], c), s[|s| - 1];
      if x == c then Added(before, EMPTY) else Grown(before, x)
  }

  /** One turn of the loop: a character behind the last string, or a new one behind it. */
  method SplitNext(out: StringList, x: byte, c: byte)
    requires out.Valid() && out.entries != []
    modifies out, out.entries, set e | e in out.entries :: e.data
    ensures out.Valid() && out.Value() == if x == c then Added(old(out.Value()), EMPTY) else Grown(old(out.Value()), x)
    ensures forall e | e in out.entries ::
      (e in old(out.entries) && (e.data == old(e.data) || fresh(e.data))) || (fresh(e) && fresh(e.data))
  {
    if x == c {
      var next := new String();
      out.PushBack(next);
    } else {
      out.GrowLast(x);
    }
  }

  method SplitAt(data: seq<byte>, c: byte) returns (out: StringList)
    ensures fresh(out) && out.Valid() && out.Value() == SplitRun(data, c)
    ensures forall e | e in out.entries :: fresh(e) && fresh(e.data)
  {
    out := new StringList();
    var first := new String();
    out.PushBack(first);
    for i := 0 to |data|
      invariant fresh(out) && out.Valid() && out.Value() == SplitRun(data[..i], c)
      invariant forall e | e in out.entries :: fresh(e) && fresh(e.data)
    {
      assert data[..i + 1][..i] == data[..i];
      assert |out.Value().items| == |out.entries|;
      SplitNext(out, data[i], c);
    }
    assert data[..|data|] == data;
  }

  /** What a string of n characters has room for, when it was built one by one. */
  ghost function Capacity(n: nat): nat {
    if n == 0 then EMPTY.capacity
    else
      var before := Capacity(n - 1);
      if n >= before then before * 2 + 1 else before
  }

  ghost function ListCapacity(n: nat): nat {
    if n == 0 then 10
    else
      var before := ListCapacity(n - 1);
      if n - 1 >= before then before * 2 + 1 else before
  }

  /** What the next character makes the strings move does not lie behind a NUL: a full last
      piece when it grows, and all pieces when the list grows. */
  ghost predicate StepIsLossless(ps: Pieces, x: byte, c: byte) {
    if x == c then |ps| >= ListCapacity(|ps|) ==> forall i | 0 <= i < |ps| :: Settled(ps[i])
    else var last := ps[|ps| - 1]; |last| + 1 >= Capacity(|last|) ==> Settled(last)
  }

  ghost predicate Lossless(s: seq<byte>, c: byte) {
    s != [] ==>
      Lossless(s[..|s| - 1], c) && StepIsLossless(Split(s[..|s| - 1], c), s[|s| - 1], c)
  }

  ghost function Chars(ts: Texts): (ps: seq<seq<byte>>)
    ensures |ps| == |ts.items|
  {
    seq(|ts.items|, i requires 0 <= i < |ts.items| => ts.items[i].chars)
  }

  ghost predicate PieceBlanked(t: Text, p: seq<byte>) {
    && |t.chars| == |p| && t.capacity == Capacity(|p|)
    && forall j | 0 <= j < |p| :: t.chars[j] == p[j] || t.chars[j] == NUL
  }

  /** The strings have the pieces' lengths, and the characters that are not the pieces' are NUL. */
  ghost predicate Blanked(ts: Texts, ps: seq<seq<byte>>) {
    && |ts.items| == |ps| && ts.capacity == ListCapacity(|ps|)
    && forall i | 0 <= i < |ps| :: PieceBlanked(ts.items[i], ps[i])
  }

  lemma AddedIsBlanked(ts: Texts, ps: Pieces)
    requires Blanked(ts, ps)
    ensures Blanked(Added(ts, EMPTY), ps + [[]])
  {
    var after, qs := Added(ts, EMPTY), ps + [[]];
    forall i | 0 <= i < |qs| ensures PieceBlanked(after.items[i], qs[i]) {
      if i < |ps| { assert PieceBlanked(ts.items[i], ps[i]); }
    }
  }

  lemma GrownIsBlanked(ts: Texts, ps: Pieces, x: byte)
    requires Blanked(ts, ps)
    ensures Blanked(Grown(ts, x), AddToLast(ps, [x]))
  {
    var after, qs := Grown(ts, x), AddToLast(ps, [x]);
    forall i | 0 <= i < |qs| ensures PieceBlanked(after.items[i], qs[i]) {
      assert PieceBlanked(ts.items[i], ps[i]);
    }
  }

  lemma {:induction false} RunIsBlanked(s: seq<byte>, c: byte)
    ensures Blanked(SplitRun(s, c), Split(s, c))
    decreases |s|
  {
    if s != [] {
      var front, x := s[..|s| - 1], s[|s| - 1];
      RunIsBlanked(front, c);
      if x == c {
        AddedIsBlanked(SplitRun(front, c), Split(front, c));
      } else {
        GrownIsBlanked(SplitRun(front, c), Split(front, c), x);
      }
    }
  }

  lemma AddedKeeps(ts: Texts, ps: Pieces)
    requires Blanked(ts, ps) && Chars(ts) == ps
    requires |ps| >= ListCapacity(|ps|) ==> forall i | 0 <= i < |ps| :: Settled(ps[i])
    ensures Chars(Added(ts, EMPTY)) == ps + [[]]
  {
    var after, qs := Added(ts, EMPTY), ps + [[]];
    assert Cut([]) == [];
    forall i | 0 <= i < |qs| ensures after.items[i].chars == qs[i] {
      if i < |ps| {
        assert Chars(ts)[i] == ps[i];
        assert |ps| >= ts.capacity ==> Settled(ps[i]);
      }
    }
  }

  /** A cut gives the piece only when it was there and is settled. */
  lemma CutOfBlanked(t: Text, p: seq<byte>)
    requires PieceBlanked(t, p) && Cut(t.chars) == p
    ensures t.chars == p && Settled(p)
  {
    forall j | 0 <= j < |p| ensures t.chars[j] == p[j] {
      assert Cut(t.chars)[j] == p[j];
    }
  }

  /** Adding a piece keeps what is there exactly when nothing of it moves from behind a NUL. */
  lemma AddedLoses(ts: Texts, ps: Pieces)
    requires Blanked(ts, ps)
    ensures Chars(Added(ts, EMPTY)) == ps + [[]] <==>
      Chars(ts) == ps && (|ps| >= ListCapacity(|ps|) ==> forall i | 0 <= i < |ps| :: Settled(ps[i]))
  {
    var after, qs := Added(ts, EMPTY), ps + [[]];
    assert Cut([]) == [];
    if Chars(after) == qs {
      forall i | 0 <= i < |ps|
        ensures ts.items[i].chars == ps[i] && (|ps| >= ts.capacity ==> Settled(ps[i]))
      {
        assert Chars(after)[i] == qs[i] == ps[i] && PieceBlanked(ts.items[i], ps[i]);
        if |ps| >= ts.capacity { CutOfBlanked(ts.items[i], ps[i]); }
      }
    }
    if Chars(ts) == ps && (|ps| >= ListCapacity(|ps|) ==> forall i | 0 <= i < |ps| :: Settled(ps[i])) {
      AddedKeeps(ts, ps);
    }
  }

  lemma GrownKeeps(ts: Texts, ps: Pieces, x: byte)
    requires Blanked(ts, ps) && Chars(ts) == ps
    requires var last := ps[|ps| - 1]; |last| + 1 >= Capacity(|last|) ==> Settled(last)
    ensures Chars(Grown(ts, x)) == AddToLast(ps, [x])
  {
    var k := |ps| - 1;
    assert PieceBlanked(ts.items[k], ps[k]) && Chars(ts)[k] == ps[k];
    assert Pushed(ts.items[k], x).chars == ps[k] + [x];
    forall i | 0 <= i < k ensures ts.items[i].chars == ps[i] {
      assert Chars(ts)[i] == ps[i];
    }
  }

  lemma GrownLoses(ts: Texts, ps: Pieces, x: byte)
    requires Blanked(ts, ps)
    ensures var last := ps[|ps| - 1];
      Chars(Grown(ts, x)) == AddToLast(ps, [x]) <==>
        Chars(ts) == ps && (|last| + 1 >= Capacity(|last|) ==> Settled(last))
  {
    var after, qs, k := Grown(ts, x), AddToLast(ps, [x]), |ps| - 1;
    var t, p := ts.items[k], ps[k];
    assert PieceBlanked(t, p);
    if Chars(after) == qs {
      assert Chars(after)[k] == qs[k] == p + [x];
      assert Pushed(t, x).chars[..|p|] == p;
      if |p| + 1 >= t.capacity { CutOfBlanked(t, p); }
      forall i | 0 <= i < |ps| ensures Chars(ts)[i] == ps[i] {
        assert Chars(after)[i] == qs[i];
      }
    }
    if Chars(ts) == ps && (|p| + 1 >= Capacity(|p|) ==> Settled(p)) {
      GrownKeeps(ts, ps, x);
    }
  }

  /** The loop gives the pieces of the string exactly when no growth moves a character from
      behind a NUL. */
  lemma {:induction false} SplitIsLossless(s: seq<byte>, c: byte)
    ensures Chars(SplitRun(s, c)) == Split(s, c) <==> Lossless(s, c)
    decreases |s|
  {
    if s == [] {
      assert Chars(SplitRun(s, c)) == [[]];
    } else {
      var front, x := s[..|s| - 1], s[|s| - 1];
      SplitIsLossless(front, c);
      RunIsBlanked(front, c);
      if x == c {
        AddedLoses(SplitRun(front, c), Split(front, c));
      } else {
        GrownLoses(SplitRun(front, c), Split(front, c), x);
      }
    }
  }

  lemma {:induction false} PiecesAreNulFree(s: seq<byte>, c: byte)
    requires NulFree(s)
    ensures forall i | 0 <= i < |Split(s, c)| :: NulFree(Split(s, c)[i])
    decreases |s|
  {
    if s != [] {
      PiecesAreNulFree(s[..|s| - 1], c);
    }
  }

  /** A string without a NUL is cut into its pieces through every growth. */
  lemma {:induction false} NulFreeIsLossless(s: seq<byte>, c: byte)
    requires NulFree(s)
    ensures Lossless(s, c)
    decreases |s|
  {
    if s != [] {
      var front := s[..|s| - 1];
      NulFreeIsLossless(front, c);
      PiecesAreNulFree(front, c);
      forall i | 0 <= i < |Split(front, c)| ensures Settled(Split(front, c)[i]) {
        NulFreeIsSettled(Split(front, c)[i]);
      }
    }
  }

  lemma {:induction false} LosslessPrefix(s: seq<byte>, c: byte, k: nat)
    requires Lossless(s, c) && k <= |s|
    ensures Lossless(s[..k], c)
    decreases |s|
  {
    if k < |s| {
      LosslessPrefix(s[..|s| - 1], c, k);
      assert s[..|s| - 1][..k] == s[..k];
    } else {
      assert s[..k] == s;
    }
  }

  lemma RoomForNine()
    ensures Capacity(9) == 10
  {
    assert Capacity(5) == 10;
  }

  /** A piece of nine characters, all but the first behind a NUL, is lost when it grows. */
  lemma GrowingLoses(nine: seq<byte>, x: byte, c: byte)
    requires |nine| == 9 && nine[0] != NUL && nine[1] == NUL && nine[2] != NUL && Free(nine, c) && x != c
    ensures !Lossless(nine + [x], c)
  {
    SplitOfMore([], nine, c);
    assert [] + nine == nine && AddToLast([[]], nine) == [nine];
    RoomForNine();
    LengthIs(nine, 1);
    assert Cut(nine)[2] != nine[2];
    assert (nine + [x])[..9] == nine;
  }

  /** A string of eleven characters with a NUL as its second loses the others when its copy
      grows at the tenth. */
  lemma CharactersBehindNul()
    ensures !Lossless([97, NUL] + seq(9, _ => 98), 44)
  {
    var s: seq<byte> := [97, NUL] + seq(9, _ => 98);
    GrowingLoses(s[..9], 98, 44);
    assert s[..9] + [98] == s[..10];
    if Lossless(s, 44) {
      LosslessPrefix(s, 44, 10);
    }
  }
}
