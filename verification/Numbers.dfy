/** Numbers as text, and the polynomial hash of a string, over 64-bit unsigned words. */
module Numbers {
  import opened Machine

  /** A character of the kernel: a signed byte. */
  type schar = x: int | -0x80 <= x < 0x80

  function Pow(b: nat, n: nat): (p: nat) {
    if n == 0 then 1 else b * Pow(b, n - 1)
  }

  // ----- Digits -----

  lemma NegativeTimes(q: int, radix: nat)
    requires q < 0
    ensures q * radix + radix <= 0
  {
    var c := -1 - q;
    assert 0 <= c * radix;
    assert q * radix + radix + c * radix == 0;
  }

  lemma PositiveTimes(q: int, radix: nat)
    requires q > 0 && radix >= 2
    ensures q * radix >= radix && q * radix >= 2 * q
  {
    assert 0 <= (q - 1) * radix;
    assert q * radix == radix + (q - 1) * radix;
    assert 0 <= q * (radix - 2);
    assert q * radix == 2 * q + q * (radix - 2);
  }

  lemma SmallQuotient(v: nat, q: int, m: int, radix: nat)
    requires radix >= 2 && v == q * radix + m && 0 <= m < radix
    ensures v < radix <==> q == 0
    ensures 0 <= 2 * q <= v
  {
    if q < 0 {
      NegativeTimes(q, radix);
    } else if q > 0 {
      PositiveTimes(q, radix);
    } else {
      assert q * radix == 0;
    }
  }

  lemma Divided(v: nat, radix: nat)
    requires radix >= 2
    ensures v == v / radix * radix + v % radix && 0 <= v % radix < radix
    ensures v < radix <==> v / radix == 0
    ensures 0 <= 2 * (v / radix) <= v
  {
    SmallQuotient(v, v / radix, v % radix, radix);
  }

  /** The digits of v, the most significant first. */
  ghost function Digits(v: nat, radix: nat): (ds: seq<nat>)
    requires radix >= 2
    ensures |ds| >= 1 && forall i | 0 <= i < |ds| :: ds[i] < radix
    decreases v
  {
    Divided(v, radix);
    if v < radix then [v] else Digits(v / radix, radix) + [v % radix]
  }

  /** The number that a row of digits stands for; a digit is any integer here. */
  ghost function Value(ds: seq<int>, radix: nat): int {
    if ds == [] then 0 else Value(ds[..|ds| - 1], radix) * radix + ds[|ds| - 1]
  }

  lemma ValueOfMore(ds: seq<int>, d: int, radix: nat)
    ensures Value(ds + [d], radix) == Value(ds, radix) * radix + d
  {
    assert (ds + [d])[..|ds|] == ds;
  }

  lemma {:induction false} ValueOfDigits(v: nat, radix: nat)
    requires radix >= 2
    ensures Value(Digits(v, radix), radix) == v
    decreases v
  {
    if v < radix {
      ValueOfMore([], v, radix);
    } else {
      Divided(v, radix);
      ValueOfDigits(v / radix, radix);
      ValueOfMore(Digits(v / radix, radix), v % radix, radix);
    }
  }

  /** No leading zero: only the number zero starts with one. */
  ghost predicate Canonical(ds: seq<nat>, radix: nat) {
    |ds| >= 1 && (forall i | 0 <= i < |ds| :: ds[i] < radix) && (|ds| > 1 ==> ds[0] != 0)
  }

  lemma {:induction false} DigitsAreCanonical(v: nat, radix: nat)
    requires radix >= 2
    ensures Canonical(Digits(v, radix), radix) && (v > 0 ==> Digits(v, radix)[0] != 0)
    decreases v
  {
    if v >= radix {
      Divided(v, radix);
      DigitsAreCanonical(v / radix, radix);
      assert Digits(v, radix) == Digits(v / radix, radix) + [v % radix];
    }
  }

  lemma Times(a: nat, b: nat, radix: nat)
    requires a < b
    ensures a * radix + radix <= b * radix
  {
    var c: nat := b - a - 1;
    assert c * radix >= 0;
    assert b * radix == (a + 1 + c) * radix == a * radix + radix + c * radix;
  }

  lemma SameQuotient(p: nat, e: nat, q: nat, d: nat, radix: nat)
    requires e < radix && d < radix && p * radix + e == q * radix + d
    ensures p == q && e == d
  {
    if p < q {
      Times(p, q, radix);
    } else if q < p {
      Times(q, p, radix);
    }
  }

  lemma Quotient(q: nat, d: nat, radix: nat)
    requires radix >= 2 && d < radix
    ensures (q * radix + d) / radix == q && (q * radix + d) % radix == d
  {
    var v := q * radix + d;
    Divided(v, radix);
    SameQuotient(v / radix, v % radix, q, d, radix);
  }

  lemma {:induction false} CanonicalValue(ds: seq<nat>, radix: nat)
    requires radix >= 2 && Canonical(ds, radix)
    ensures Value(ds, radix) >= 0 && (|ds| > 1 ==> Value(ds, radix) >= radix)
    decreases |ds|
  {
    if |ds| == 1 {
      assert ds[..0] == [];
    } else {
      var front := ds[..|ds| - 1];
      CanonicalValue(front, radix);
      assert |front| == 1 ==> front[..0] == [] && Value(front, radix) == ds[0];
      assert Value(front, radix) >= 1;
      assert (Value(front, radix) - 1) * radix >= 0;
    }
  }

  /** There is one way to write a number without leading zeros. */
  lemma {:induction false} DigitsAreUnique(ds: seq<nat>, radix: nat)
    requires radix >= 2 && Canonical(ds, radix)
    ensures Value(ds, radix) >= 0 && ds == Digits(Value(ds, radix), radix)
    decreases |ds|
  {
    CanonicalValue(ds, radix);
    var front, last := ds[..|ds| - 1], ds[|ds| - 1];
    assert ds == front + [last];
    if front != [] {
      DigitsAreUnique(front, radix);
      Quotient(Value(front, radix), last, radix);
    }
  }

  /** A number below 2^n has at most n digits, whatever the radix. */
  lemma {:induction false} DigitsAreFew(v: nat, radix: nat, n: nat)
    requires radix >= 2 && n >= 1 && v < Pow(2, n)
    ensures |Digits(v, radix)| <= n
    decreases v
  {
    if v >= radix {
      var q := v / radix;
      Divided(v, radix);
      assert n > 1 by {
        assert Pow(2, 1) == 2;
      }
      DigitsAreFew(q, radix, n - 1);
    }
  }

  lemma {:induction false} PowSum(b: nat, m: nat, n: nat)
    ensures Pow(b, m + n) == Pow(b, m) * Pow(b, n)
  {
    if m > 0 {
      PowSum(b, m - 1, n);
      assert b * (Pow(b, m - 1) * Pow(b, n)) == b * Pow(b, m - 1) * Pow(b, n);
    }
  }

  lemma WordHas64Bits()
    ensures Pow(2, 64) == TWO_64
  {
    assert Pow(2, 4) == 16;
    PowSum(2, 4, 4);
    PowSum(2, 8, 8);
    PowSum(2, 16, 16);
    PowSum(2, 32, 32);
  }

  // ----- Numbers to text -----

  function HexChar(d: nat): schar
    requires d < 16
  {
    if d < 10 then 48 + d else 55 + d
  }

  ghost function Text(ds: seq<nat>): (t: seq<schar>)
    requires forall i | 0 <= i < |ds| :: ds[i] < 16
    ensures |t| == |ds|
  {
    seq(|ds|, i requires 0 <= i < |ds| => HexChar(ds[i]))
  }

  /** The characters are the digits 0 to 9 and the letters A to F. */
  lemma HexCharacters(d: nat)
    requires d < 16
    ensures HexChar(d) == "0123456789ABCDEF"[d] as int
  {
  }

  lemma TextIsInjective(a: seq<nat>, b: seq<nat>)
    requires forall i | 0 <= i < |a| :: a[i] < 16
    requires forall i | 0 <= i < |b| :: b[i] < 16
    requires Text(a) == Text(b)
    ensures a == b
  {
    assert |Text(a)| == |Text(b)|;
    forall i | 0 <= i < |a| ensures a[i] == b[i] {
      assert Text(a)[i] == HexChar(a[i]) && Text(b)[i] == HexChar(b[i]);
    }
  }

  /** In a radix up to 16 the characters tell numbers apart. */
  lemma {:induction false} TextTellsApart(v: nat, w: nat, radix: nat)
    requires 2 <= radix <= 16
    ensures Text(Digits(v, radix)) == Text(Digits(w, radix)) <==> v == w
  {
    if Text(Digits(v, radix)) == Text(Digits(w, radix)) {
      TextIsInjective(Digits(v, radix), Digits(w, radix));
      ValueOfDigits(v, radix);
      ValueOfDigits(w, radix);
    }
  }

  ghost function Zeros(n: nat): (z: seq<schar>)
    ensures |z| == n && forall i | 0 <= i < n :: z[i] == 0
  {
    seq(n, _ => 0)
  }

  lemma {:induction false} LastDigit(v: nat, radix: nat)
    requires radix >= 2
    ensures 0 <= v / radix && 0 <= v % radix < radix
    ensures var ds := Digits(v, radix);
      ds[|ds| - 1] == v % radix && (v / radix == 0 ==> |ds| == 1)
      && (v / radix > 0 ==> |ds| > 1 && ds[..|ds| - 1] == Digits(v / radix, radix))
  {
    Divided(v, radix);
  }

  /** A prefix of the digits ends with the digit at its end, and has shorter prefixes. */
  lemma PrefixOf(ds: seq<nat>, front: seq<nat>, k: nat)
    requires 0 < k <= |ds| && ds[..k] == front
    ensures front[|front| - 1] == ds[k - 1] && front[..|front| - 1] == ds[..k - 1]
  {
  }

  /** The loop that divides: the last digit comes first. */
  method ReversedDigits(val: u64, radix: nat) returns (buffer: array<schar>, pos: nat)
    requires 2 <= radix <= 16
    ensures fresh(buffer) && pos == |Digits(val, radix)| <= 64 == buffer.Length
    ensures forall k | 0 <= k < pos :: buffer[k] == HexChar(Digits(val, radix)[pos - 1 - k])
  {
    ghost var ds, n := Digits(val, radix), |Digits(val, radix)|;
    WordHas64Bits();
    DigitsAreFew(val, radix, 64);
    buffer := new schar[64];
    pos := 0;
    var v, more := val, true;
    while more
      invariant 0 <= pos <= n && 0 <= v
      invariant more ==> pos < n && ds[..n - pos] == Digits(v, radix)
      invariant !more ==> pos == n
      invariant forall k | 0 <= k < pos :: buffer[k] == HexChar(ds[n - 1 - k])
      decreases n - pos, more
    {
      ghost var front := Digits(v, radix);
      LastDigit(v, radix);
      var remainder := v % radix;
      v := v / radix;
      PrefixOf(ds, front, n - pos);
      assert ds[n - 1 - pos] == remainder;
      buffer[pos] := HexChar(remainder);
      pos := pos + 1;
      more := v > 0;
    }
  }

  /** Writes the digits in reverse to a buffer of its own, then turns them round into the
      shared output array. */
  method Utoa(val: u64, radix: nat, output: array<schar>)
    requires 2 <= radix <= 16 && output.Length == 64
    modifies output
    ensures |Digits(val, radix)| <= 64
    ensures output[..] == Text(Digits(val, radix)) + Zeros(64 - |Digits(val, radix)|)
  {
    for i := 0 to 64
      invariant output[..i] == Zeros(i)
    {
      output[i] := 0;
    }
    assert output[..] == Zeros(64);
    var buffer, pos := ReversedDigits(val, radix);
    ghost var ds, n := Digits(val, radix), pos;
    var at := 0;
    pos := pos - 1;
    while pos >= 0
      invariant -1 <= pos < n && at == n - 1 - pos
      invariant forall k | 0 <= k < at :: output[k] == HexChar(ds[k])
      invariant forall k | at <= k < 64 :: output[k] == 0
      decreases pos
      modifies output
    {
      output[at] := buffer[pos];
      at := at + 1;
      pos := pos - 1;
    }
  }

  // ----- Text to numbers -----

  /** What each character counts for; one that is no digit counts for something all the same. */
  ghost function Worths(str: seq<schar>): (ds: seq<int>)
    ensures |ds| == |str|
  {
    seq(|str|, i requires 0 <= i < |str| => str[i] as int - 48)
  }

  lemma WrappedStep(x: int, d: int)
    ensures (x % TWO_64 * 10 + d) % TWO_64 == (x * 10 + d) % TWO_64
  {
    var q := x / TWO_64;
    assert x * 10 + d == (x % TWO_64 * 10 + d) + q * 10 * TWO_64;
  }

  /** The value of the characters, wrapped to a word. */
  method Atou(str: seq<schar>, len: nat) returns (num: u64)
    requires len <= |str|
    ensures num == Value(Worths(str[..len]), 10) % TWO_64
  {
    num := 0;
    for i := 0 to len
      invariant num == Value(Worths(str[..i]), 10) % TWO_64
    {
      assert Worths(str[..i + 1]) == Worths(str[..i]) + [str[i] as int - 48];
      ValueOfMore(Worths(str[..i]), str[i] as int - 48, 10);
      WrappedStep(Value(Worths(str[..i]), 10), str[i] as int - 48);
      num := (num * 10 + (str[i] as int - 48)) % TWO_64;
    }
    assert str[..len][..len] == str[..len];
  }

  lemma WorthsOfText(ds: seq<nat>)
    requires forall i | 0 <= i < |ds| :: ds[i] < 10
    ensures Worths(Text(ds)) == ds
  {
  }

  /** Reading back a printed number gives the number. */
  lemma {:induction false} ReadBack(v: u64)
    ensures Value(Worths(Text(Digits(v, 10))), 10) == v
  {
    WorthsOfText(Digits(v, 10));
    ValueOfDigits(v, 10);
  }

  /** On the way no value exceeds the number itself, so the word never wraps. */
  lemma {:induction false} NoWrapOnTheWay(v: nat, k: nat)
    requires k <= |Digits(v, 10)|
    ensures 0 <= Value(Worths(Text(Digits(v, 10))[..k]), 10) <= v
    decreases v
  {
    var t := Text(Digits(v, 10));
    if k == |t| {
      assert t[..k] == t;
      WorthsOfText(Digits(v, 10));
      ValueOfDigits(v, 10);
    } else if k > 0 {
      var front := Text(Digits(v / 10, 10));
      assert t[..k] == front[..k];
      NoWrapOnTheWay(v / 10, k);
    }
  }

  /** What Utoa leaves in its output, read by Atou over the digits, is the number again. */
  lemma {:induction false} AtouOfUtoa(v: u64, output: seq<schar>)
    requires |Digits(v, 10)| <= 64 && output == Text(Digits(v, 10)) + Zeros(64 - |Digits(v, 10)|)
    ensures Value(Worths(output[..|Digits(v, 10)|]), 10) % TWO_64 == v
  {
    assert output[..|Digits(v, 10)|] == Text(Digits(v, 10));
    ReadBack(v);
  }

  // ----- The hash of a string -----

  const MOD: int := 1_000_000_007
  const BASE: int := 67

  /** The loop of the hash, with its 64-bit arithmetic written out: what a character below
      zero adds is taken modulo 2^64. */
  ghost function HashFrom(s: seq<schar>, sum: u64, base: u64): u64 {
    if s == [] then sum
    else HashFrom(s[1..], (sum + base * s[0]) % TWO_64 % MOD, base * BASE % TWO_64 % MOD)
  }

  method HashString(s: seq<schar>) returns (sum: u64)
    ensures sum == HashFrom(s, 0, 1)
  {
    sum := 0;
    var base: u64 := 1;
    for i := 0 to |s|
      invariant HashFrom(s[i..], sum, base) == HashFrom(s, 0, 1)
    {
      assert s[i..][1..] == s[i + 1..];
      sum := (sum + base * s[i]) % TWO_64;
      base := base * BASE % TWO_64;
      sum := sum % MOD;
      base := base % MOD;
    }
  }

  /** The sum of s[i] * BASE^i. */
  ghost function Poly(s: seq<schar>): int {
    if s == [] then 0 else s[0] + BASE * Poly(s[1..])
  }

  ghost predicate SevenBit(s: seq<schar>) {
    forall i | 0 <= i < |s| :: s[i] >= 0
  }

  /** How often the sum falls below zero and wraps around in the loop of the hash. */
  ghost function Wraps(s: seq<schar>, sum: u64, base: u64): nat {
    if s == [] then 0
    else
      (if sum + base * s[0] < 0 then 1 else 0)
        + Wraps(s[1..], (sum + base * s[0]) % TWO_64 % MOD, base * BASE % TWO_64 % MOD)
  }

  /** No product or sum leaves 64 bits when the characters have seven; with other characters
      a sum may fall below zero, but not by a whole word. */
  lemma StepFits(sum: int, base: int, c: schar)
    requires 0 <= sum < MOD && 0 <= base < MOD
    ensures base * BASE % TWO_64 == base * BASE && (c >= 0 ==> 0 <= sum + base * c)
    ensures -TWO_64 < sum + base * c < TWO_64
  {
    assert -0x80 * base <= base * c <= 127 * base;
    assert c >= 0 ==> 0 <= base * c;
  }

  lemma Wrapped(x: int)
    requires -TWO_64 < x < TWO_64
    ensures x % TWO_64 == if x < 0 then x + TWO_64 else x
  {
  }

  lemma Reduced(x: int) returns (r: int, k: int)
    ensures r == x % MOD && 0 <= r < MOD && r + MOD * k == x
  {
    r, k := x % MOD, x / MOD;
  }

  lemma IsRemainder(r: int, k: int, x: int)
    requires r + MOD * k == x && 0 <= r < MOD
    ensures r == x % MOD
  {
  }

  /** One step of the loop in plain arithmetic; w tells whether the sum wrapped around. */
  lemma {:induction false} HashStep(s: seq<schar>, sum: int, base: int)
    returns (sum': int, base': int, i: int, j: int, w: nat)
    requires s != [] && 0 <= sum < MOD && 0 <= base < MOD
    ensures 0 <= sum' < MOD && sum' + MOD * i == sum + base * s[0] + w * TWO_64
    ensures 0 <= base' < MOD && base' + MOD * j == base * BASE
    ensures HashFrom(s, sum, base) == HashFrom(s[1..], sum', base')
    ensures Wraps(s, sum, base) == w + Wraps(s[1..], sum', base')
    ensures w <= 1 && (s[0] >= 0 ==> w == 0)
  {
    var x := sum + base * s[0];
    StepFits(sum, base, s[0]);
    Wrapped(x);
    w := if x < 0 then 1 else 0;
    sum', i := Reduced(x % TWO_64);
    base', j := Reduced(base * BASE);
  }

  /** What one step and the others amount to together. */
  lemma Gathered(h: int, m: int, sum': int, base': int, p: int, wraps: int,
                 sum: int, base: int, c: int, w: int, i: int, j: int)
    requires h + MOD * m == sum' + base' * p + wraps * TWO_64
    requires sum' + MOD * i == sum + base * c + w * TWO_64
    requires base' + MOD * j == base * BASE
    ensures h + MOD * (m + i + j * p) == sum + base * (c + BASE * p) + (w + wraps) * TWO_64
  {
    assert base * (BASE * p) == (base' + MOD * j) * p == base' * p + MOD * (j * p);
  }

  /** The loop adds base times the polynomial and a word for each time the sum wrapped
      around, but for a multiple of MOD. */
  lemma {:induction false} HashIsPoly(s: seq<schar>, sum: int, base: int) returns (k: int)
    requires 0 <= sum < MOD && 0 <= base < MOD
    ensures 0 <= HashFrom(s, sum, base) < MOD
    ensures HashFrom(s, sum, base) + MOD * k == sum + base * Poly(s) + Wraps(s, sum, base) * TWO_64
    ensures Wraps(s, sum, base) <= |s| && (SevenBit(s) ==> Wraps(s, sum, base) == 0)
    decreases |s|
  {
    if s == [] {
      k := 0;
    } else {
      var sum', base', i, j, w := HashStep(s, sum, base);
      var p := Poly(s[1..]);
      var m := HashIsPoly(s[1..], sum', base');
      k := m + i + j * p;
      Gathered(HashFrom(s, sum, base), m, sum', base', p, Wraps(s[1..], sum', base'), sum, base, s[0], w, i, j);
    }
  }

  /** The inverse of 2^64 modulo MOD, and the multiple of MOD by which it is one. */
  const INVERSE: int := 268203220
  const INVERSE_MULTIPLE: int := 4947476124452486217

  lemma Divides(w: int, k: int)
    requires w == MOD * k
    ensures w % MOD == 0
  {
  }

  lemma SameRemainder(x: int, k: int)
    ensures (x + MOD * k) % MOD == x % MOD
  {
  }

  /** MOD does not divide a word, so whole words vanish only MOD at a time. */
  lemma WordsVanish(w: int, x: int)
    ensures (x + w * TWO_64) % MOD == x % MOD <==> w % MOD == 0
  {
    var q := w / MOD;
    if w % MOD == 0 {
      SameRemainder(x, q * TWO_64);
      assert x + w * TWO_64 == x + MOD * (q * TWO_64);
    } else if (x + w * TWO_64) % MOD == x % MOD {
      var m := (x + w * TWO_64) / MOD - x / MOD;
      assert w * TWO_64 == MOD * m;
      assert INVERSE * TWO_64 == 1 + MOD * INVERSE_MULTIPLE;
      assert INVERSE * (w * TWO_64) == w + MOD * (w * INVERSE_MULTIPLE);
      Divides(w, INVERSE * m - w * INVERSE_MULTIPLE);
    }
  }

  /** The hash is the polynomial at BASE exactly when the sum wrapped around never, or
      a multiple of MOD times. */
  lemma {:induction false} HashMeaning(s: seq<schar>)
    ensures HashFrom(s, 0, 1) == Poly(s) % MOD <==> Wraps(s, 0, 1) % MOD == 0
  {
    var k := HashIsPoly(s, 0, 1);
    IsRemainder(HashFrom(s, 0, 1), k, Poly(s) + Wraps(s, 0, 1) * TWO_64);
    WordsVanish(Wraps(s, 0, 1), Poly(s));
  }

  /** The hash of a string of 7-bit characters is its polynomial at BASE. */
  lemma {:induction false} HashOfSevenBit(s: seq<schar>)
    requires SevenBit(s)
    ensures HashFrom(s, 0, 1) == Poly(s) % 1_000_000_007
  {
    var k := HashIsPoly(s, 0, 1);
    HashMeaning(s);
  }

  lemma {:induction false} PolyOfConcat(s: seq<schar>, t: seq<schar>)
    ensures Poly(s + t) == Poly(s) + Pow(BASE, |s|) * Poly(t)
  {
    if s == [] {
      assert s + t == t;
    } else {
      assert (s + t)[1..] == s[1..] + t;
      PolyOfConcat(s[1..], t);
      assert Pow(BASE, |s|) * Poly(t) == BASE * (Pow(BASE, |s| - 1) * Poly(t));
    }
  }

  lemma {:induction false} HashAndRest(s: seq<schar>) returns (r: int, w: int, k: int)
    ensures r == HashFrom(s, 0, 1) && w == Wraps(s, 0, 1) && 0 <= r < MOD && r + MOD * k == Poly(s) + w * TWO_64
  {
    r, w := HashFrom(s, 0, 1), Wraps(s, 0, 1);
    k := HashIsPoly(s, 0, 1);
  }

  lemma Expanded(y: int, v: int, j: int, second: int, p: int)
    requires y + MOD * j == second + v * TWO_64
    ensures p * y + MOD * (p * j) == p * second + p * v * TWO_64
  {
    assert p * (y + MOD * j) == p * (second + v * TWO_64);
  }

  /** The law for numbers that are sums but for multiples of MOD and of a word. */
  lemma Combined(x: int, u: int, i: int, y: int, v: int, j: int, z: int, w: int, k: int,
                 first: int, second: int, both: int, p: int)
    requires x + MOD * i == first + u * TWO_64 && y + MOD * j == second + v * TWO_64
    requires z + MOD * k == both + w * TWO_64 && both == first + p * second && 0 <= z < MOD
    ensures z == (x + p * y) % MOD <==> (w - u - p * v) % MOD == 0
  {
    Expanded(y, v, j, second, p);
    var d := w - u - p * v;
    var sum := x + p * y;
    IsRemainder(z, k - i - p * j, sum + d * TWO_64);
    WordsVanish(d, sum);
  }

  /** The hash of a concatenation follows from the two hashes and the first length exactly when
      the three sums wrapped around as often as the same formula says, but for a multiple of MOD. */
  lemma {:induction false} HashOfConcat(s: seq<schar>, t: seq<schar>)
    ensures HashFrom(s + t, 0, 1) == (HashFrom(s, 0, 1) + Pow(67, |s|) * HashFrom(t, 0, 1)) % 1_000_000_007
      <==> (Wraps(s + t, 0, 1) - Wraps(s, 0, 1) - Pow(67, |s|) * Wraps(t, 0, 1)) % 1_000_000_007 == 0
  {
    var x, u, i := HashAndRest(s);
    var y, v, j := HashAndRest(t);
    var z, w, k := HashAndRest(s + t);
    PolyOfConcat(s, t);
    Combined(x, u, i, y, v, j, z, w, k, Poly(s), Poly(t), Poly(s + t), Pow(BASE, |s|));
  }

  lemma {:induction false} HashOfSevenBitConcat(s: seq<schar>, t: seq<schar>)
    requires SevenBit(s) && SevenBit(t)
    ensures HashFrom(s + t, 0, 1) == (HashFrom(s, 0, 1) + Pow(67, |s|) * HashFrom(t, 0, 1)) % 1_000_000_007
  {
    var i := HashIsPoly(s, 0, 1);
    var j := HashIsPoly(t, 0, 1);
    var k := HashIsPoly(s + t, 0, 1);
    HashOfConcat(s, t);
  }

  lemma LastCharacter(c: schar, sum: u64, base: u64)
    ensures Wraps([c], sum, base) == if sum + base * c < 0 then 1 else 0
  {
    assert [c][1..] == [];
  }

  lemma OneNegative()
    ensures Wraps([-1], 0, 1) == 1 && Wraps([122, -1], 0, 1) == 0
  {
    LastCharacter(-1, 0, 1);
    LastCharacter(-1, 122, 67);
    assert [122, -1][1..] == [-1];
    assert 0 + 1 * 122 == 122 && 122 % TWO_64 % MOD == 122 && 1 * BASE % TWO_64 % MOD == 67;
  }

  /** A character outside seven bits makes the sum of the first step wrap around. Behind a
      greater one it does no harm. */
  lemma HashOfNegative()
    ensures HashFrom([-1], 0, 1) != Poly([-1]) % MOD
    ensures HashFrom([122, -1], 0, 1) == Poly([122, -1]) % MOD
  {
    OneNegative();
    HashMeaning([-1]);
    HashMeaning([122, -1]);
  }
}
