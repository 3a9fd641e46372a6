/** Short file names: the conversion of a name to the eleven bytes of a directory entry,
    and the search for them in a directory. */
module FatNames {
  import opened Machine

  const MAX_FILENAME_LENGTH: int := 11
  const SPACE: byte := 0x20
  const DOT: byte := 0x2E
  const DELETED: byte := 0xE5
  const LONG_NAME: byte := 0x0F

  function ToUpper(c: byte): byte {
    if 97 <= c <= 122 then c - 32 else c
  }

  function Upper(s: seq<byte>): (u: seq<byte>)
    ensures |u| == |s|
    ensures forall i | 0 <= i < |s| :: u[i] == if 97 <= s[i] <= 122 then s[i] - 32 else s[i]
  {
    seq(|s|, i requires 0 <= i < |s| => ToUpper(s[i]))
  }

  function Blanks(n: nat): (s: seq<byte>)
    ensures |s| == n && forall i | 0 <= i < n :: s[i] == 0x20
  {
    seq(n, _ => SPACE)
  }

  /** The string as its characters in memory: a NUL stands behind the last one. */
  function CharAt(name: seq<byte>, i: nat): byte {
    if i < |name| then name[i] else 0
  }

  // ----- The conversion -----

  /** What is written from column i on, when rest is still to be read: a dot moves to the
      extension, every other character is put in the next column. */
  ghost function Convert(out: seq<byte>, i: int, rest: seq<byte>): (after: seq<byte>)
    requires |out| == MAX_FILENAME_LENGTH && 0 <= i
    ensures |after| == MAX_FILENAME_LENGTH
    decreases |rest|
  {
    if i >= MAX_FILENAME_LENGTH || rest == [] || rest[0] == 0 then out
    else if rest[0] == DOT then Convert(out, 8, rest[1..])
    else Convert(out[i := ToUpper(rest[0])], i + 1, rest[1..])
  }

  ghost function FatName(name: seq<byte>): seq<byte> {
    Convert(Blanks(MAX_FILENAME_LENGTH), 0, name)
  }

  /** The loop index goes back at every dot; the characters not yet read are the measure. */
  method FilenameToFat(name: seq<byte>) returns (fat: array<byte>)
    ensures fresh(fat) && fat[..] == FatName(name)
  {
    fat := new byte[MAX_FILENAME_LENGTH](_ => SPACE);
    var srcIndex := 0;
    var i := 0;
    assert fat[..] == Blanks(MAX_FILENAME_LENGTH);
    while i < MAX_FILENAME_LENGTH
      invariant 0 <= i && 0 <= srcIndex <= |name|
      invariant Convert(fat[..], i, name[srcIndex..]) == FatName(name)
      decreases |name| - srcIndex
    {
      var srcChar := CharAt(name, srcIndex);
      if srcChar == 0 { break; }
      assert name[srcIndex..][1..] == name[srcIndex + 1..];
      if srcChar == DOT {
        i := 7;
        srcIndex := srcIndex + 1;
      } else {
        fat[i] := ToUpper(srcChar);
        srcIndex := srcIndex + 1;
      }
      i := i + 1;
    }
  }

  /** No column holds a NUL, a dot or a small letter. */
  ghost predicate ProperName(s: seq<byte>) {
    forall i | 0 <= i < |s| :: s[i] != 0 && s[i] != 0x2E && !(97 <= s[i] <= 122)
  }

  lemma {:induction false} ConvertIsProper(out: seq<byte>, i: int, rest: seq<byte>)
    requires |out| == MAX_FILENAME_LENGTH && 0 <= i && ProperName(out)
    ensures ProperName(Convert(out, i, rest))
    decreases |rest|
  {
    if i < MAX_FILENAME_LENGTH && rest != [] && rest[0] != 0 {
      if rest[0] == DOT {
        ConvertIsProper(out, 8, rest[1..]);
      } else {
        ConvertIsProper(out[i := ToUpper(rest[0])], i + 1, rest[1..]);
      }
    }
  }

  /** Whatever the name was. */
  lemma AnyNameIsProper(name: seq<byte>)
    ensures |FatName(name)| == 11 && ProperName(FatName(name))
  {
    ConvertIsProper(Blanks(MAX_FILENAME_LENGTH), 0, name);
  }

  // ----- Names of the 8.3 form -----

  ghost predicate Plain(s: seq<byte>) {
    forall i | 0 <= i < |s| :: s[i] != 0 && s[i] != DOT && s[i] != SPACE
  }

  /** A base of one to eight characters and an extension of at most three. */
  ghost predicate Valid83(base: seq<byte>, ext: seq<byte>) {
    1 <= |base| <= 8 && |ext| <= 3 && Plain(base) && Plain(ext)
  }

  /** The name as it is written; without an extension the dot may be left out. */
  function Written(base: seq<byte>, ext: seq<byte>, dotted: bool): seq<byte> {
    if ext == [] && !dotted then base else base + [DOT] + ext
  }

  function Padded(s: seq<byte>, n: nat): (p: seq<byte>)
    requires |s| <= n
    ensures |p| == n
  {
    Upper(s) + Blanks(n - |s|)
  }

  /** Reading plain characters fills the columns from i on. */
  lemma {:induction false} ConvertPlain(out: seq<byte>, i: nat, s: seq<byte>, rest: seq<byte>)
    requires |out| == MAX_FILENAME_LENGTH && i + |s| <= MAX_FILENAME_LENGTH && Plain(s)
    ensures Convert(out, i, s + rest) == Convert(out[..i] + Upper(s) + out[i + |s|..], i + |s|, rest)
    decreases |s|
  {
    if s == [] {
      assert s + rest == rest && out[..i] + Upper(s) + out[i..] == out;
    } else {
      var out1, s1 := out[i := ToUpper(s[0])], s[1..];
      assert (s + rest)[1..] == s1 + rest;
      assert Upper(s) == [ToUpper(s[0])] + Upper(s1);
      ConvertPlain(out1, i + 1, s1, rest);
      assert out1[..i + 1] + Upper(s1) + out1[i + 1 + |s1|..] == out[..i] + Upper(s) + out[i + |s|..];
    }
  }

  /** A base of at most eight characters fills the first columns. */
  lemma BaseName(base: seq<byte>, rest: seq<byte>)
    requires |base| <= 8 && Plain(base)
    ensures FatName(base + rest) == Convert(Padded(base, 8) + Blanks(3), |base|, rest)
  {
    var blank := Blanks(MAX_FILENAME_LENGTH);
    ConvertPlain(blank, 0, base, rest);
    assert blank[..0] + Upper(base) + blank[|base|..] == Padded(base, 8) + Blanks(3);
  }

  /** Behind the dot the extension fills the last three columns. */
  lemma ExtensionName(front: seq<byte>, i: nat, ext: seq<byte>)
    requires |front| == 8 && i <= 8 && |ext| <= 3 && Plain(ext)
    ensures Convert(front + Blanks(3), i, [DOT] + ext) == front + Padded(ext, 3)
  {
    var out := front + Blanks(3);
    assert ([DOT] + ext)[1..] == ext && ext + [] == ext;
    ConvertPlain(out, 8, ext, []);
    assert out[..8] + Upper(ext) + out[8 + |ext|..] == front + Padded(ext, 3);
  }

  /** A valid name becomes its base and extension in upper case, each filled up with spaces. */
  lemma ValidName(base: seq<byte>, ext: seq<byte>, dotted: bool)
    requires Valid83(base, ext)
    ensures FatName(Written(base, ext, dotted)) == Padded(base, 8) + Padded(ext, 3)
  {
    if ext == [] && !dotted {
      BaseName(base, []);
      assert base + [] == base && Padded([], 3) == Blanks(3);
    } else {
      BaseName(base, [DOT] + ext);
      assert base + [DOT] + ext == base + ([DOT] + ext);
      ExtensionName(Padded(base, 8), |base|, ext);
    }
  }

  lemma PaddedIsInjective(s: seq<byte>, t: seq<byte>, n: nat)
    requires |s| <= n && |t| <= n && Plain(s) && Plain(t)
    ensures Padded(s, n) == Padded(t, n) <==> Upper(s) == Upper(t)
  {
    if Padded(s, n) == Padded(t, n) {
      assert forall i | 0 <= i < |s| :: Padded(s, n)[i] == ToUpper(s[i]) != SPACE;
      assert forall i | 0 <= i < |t| :: Padded(t, n)[i] == ToUpper(t[i]) != SPACE;
      assert |s| < n ==> Padded(s, n)[|s|] == SPACE;
      assert |t| < n ==> Padded(t, n)[|t|] == SPACE;
      assert Upper(s) == Padded(s, n)[..|s|] && Upper(t) == Padded(t, n)[..|t|];
    }
  }

  /** Two valid names become the same directory name exactly when they are the same up to
      letter case, with or without a final dot. */
  lemma ValidNamesAreDistinct(base: seq<byte>, ext: seq<byte>, dotted: bool,
                              base': seq<byte>, ext': seq<byte>, dotted': bool)
    requires Valid83(base, ext) && Valid83(base', ext')
    ensures FatName(Written(base, ext, dotted)) == FatName(Written(base', ext', dotted'))
      <==> Upper(base) == Upper(base') && Upper(ext) == Upper(ext')
  {
    ValidName(base, ext, dotted);
    ValidName(base', ext', dotted');
    PaddedIsInjective(base, base', 8);
    PaddedIsInjective(ext, ext', 3);
    var n, n' := Padded(base, 8) + Padded(ext, 3), Padded(base', 8) + Padded(ext', 3);
    assert n[..8] == Padded(base, 8) && n[8..] == Padded(ext, 3);
    assert n'[..8] == Padded(base', 8) && n'[8..] == Padded(ext', 3);
  }

  /** A longer base runs on into the extension, so it can meet another name there. */
  lemma LongBaseCollides(base: seq<byte>, c: byte)
    requires |base| == 8 && Plain(base) && Plain([c])
    ensures FatName(base + [c]) == FatName(base + [DOT] + [c])
  {
    var blank := Blanks(MAX_FILENAME_LENGTH);
    assert Plain(base + [c]);
    ConvertPlain(blank, 0, base + [c], []);
    assert base + [c] + [] == base + [c];
    ValidName(base, [c], true);
    assert Upper(base + [c]) == Upper(base) + Upper([c]);
  }

  // ----- Directories -----

  datatype DirEntry = DirEntry(name: seq<byte>, attrib: byte)

  type Directory = d: seq<DirEntry> | forall i | 0 <= i < |d| :: |d[i].name| == MAX_FILENAME_LENGTH witness []

  method StrcmpN(a: seq<byte>, b: seq<byte>, count: nat) returns (same: bool)
    requires count <= |a| && count <= |b|
    ensures same <==> a[..count] == b[..count]
  {
    for i := 0 to count
      invariant a[..i] == b[..i]
    {
      if a[i] != b[i] {
        assert a[..count][i] != b[..count][i];
        return false;
      }
    }
    same := true;
  }

  /** The first entry in front of the end mark that carries the name, is not deleted and is no
      part of a long name; or -1. */
  method SearchDirectory(directory: Directory, fatName: seq<byte>) returns (r: int)
    requires |fatName| == MAX_FILENAME_LENGTH
    ensures -1 <= r < |directory|
    ensures r >= 0 ==>
      && directory[r].name == fatName && fatName[0] != 0xE5 && directory[r].attrib != 0x0F
      && forall i | 0 <= i <= r :: directory[i].name[0] != 0
    ensures forall i | 0 <= i < |directory| && (r == -1 || i < r) ::
      || directory[i].name != fatName || directory[i].name[0] == 0xE5 || directory[i].attrib == 0x0F
      || exists e | 0 <= e <= i :: directory[e].name[0] == 0
  {
    var current := 0;
    while current < |directory|
      invariant 0 <= current <= |directory|
      invariant forall i | 0 <= i < current ::
        && directory[i].name[0] != 0
        && (directory[i].name != fatName || directory[i].name[0] == 0xE5 || directory[i].attrib == 0x0F)
    {
      var entry := directory[current];
      if entry.name[0] == 0 {
        return -1;
      }
      if entry.name[0] == DELETED || entry.attrib == LONG_NAME {
        current := current + 1;
        continue;
      }
      var same := StrcmpN(fatName, entry.name, MAX_FILENAME_LENGTH);
      assert fatName[..MAX_FILENAME_LENGTH] == fatName && entry.name[..MAX_FILENAME_LENGTH] == entry.name;
      if same {
        return current;
      }
      current := current + 1;
    }
    r := -1;
  }
}
