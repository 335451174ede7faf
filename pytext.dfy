/**
 * The parts of Python's `str` behaviour that the crawler relies on: `strip`,
 * `rstrip(chars)`, the `in` substring test, `lower`, `replace(c, '')`,
 * `split(sep)`, `sep.join`, `str(int)`, `int(str)` and the ordering used by
 * `sorted`. Strings are sequences of Unicode scalar values, as in Python.
 */
module PyText {
  import opened Wrappers

  // ---------------------------------------------------------------------------
  // IsSpace and strip

  /** Python's `c.isspace()`: the Unicode whitespace characters. */
  predicate IsSpace(c: char) {
    || '\t' <= c <= '\r'
    || '\U{1C}' <= c <= ' '
    || c == '\U{85}' || c == '\U{A0}' || c == '\U{1680}'
    || '\U{2000}' <= c <= '\U{200A}'
    || c == '\U{2028}' || c == '\U{2029}' || c == '\U{202F}' || c == '\U{205F}' || c == '\U{3000}'
  }

  /** The characters a strip removes: whitespace, or those of a given string. */
  datatype CharClass = Whitespace | OneOf(chars: string)

  predicate Drops(k: CharClass, c: char) {
    match k
    case Whitespace => IsSpace(c)
    case OneOf(chars) => c in chars
  }

  /**
   * Removes trailing characters for which `drop` holds. The result is the
   * longest prefix of `s` that does not end in such a character.
   */
  function RStripWhile(s: string, drop: CharClass): (r: string)
    ensures |r| <= |s| && r == s[..|r|]
    ensures forall i :: |r| <= i < |s| ==> Drops(drop, s[i])
    ensures r == [] || !Drops(drop, r[|r| - 1])
    decreases |s|
  {
    if |s| > 0 && Drops(drop, s[|s| - 1]) then
      var r := RStripWhile(s[..|s| - 1], drop);
      assert s[..|s| - 1][..|r|] == s[..|r|];
      r
    else
      s
  }

  /** Removes leading characters for which `drop` holds. */
  function LStripWhile(s: string, drop: CharClass): (r: string)
    ensures |r| <= |s| && r == s[|s| - |r|..]
    ensures forall i :: 0 <= i < |s| - |r| ==> Drops(drop, s[i])
    ensures r == [] || !Drops(drop, r[0])
    decreases |s|
  {
    if |s| > 0 && Drops(drop, s[0]) then
      var r := LStripWhile(s[1..], drop);
      LStripStep(s, r, drop);
      r
    else
      s
  }

  /** One step of `LStripWhile`: what holds of the tail after the first character holds of the whole. */
  lemma {:induction false} LStripStep(s: string, r: string, drop: CharClass)
    requires |s| > 0 && Drops(drop, s[0])
    requires |r| <= |s| - 1 && r == s[1..][|s| - 1 - |r|..]
    requires forall i :: 0 <= i < |s| - 1 - |r| ==> Drops(drop, s[1..][i])
    ensures r == s[|s| - |r|..]
    ensures forall i :: 0 <= i < |s| - |r| ==> Drops(drop, s[i])
  {
    forall i | 1 <= i < |s| - |r| ensures Drops(drop, s[i]) {
      assert s[i] == s[1..][i - 1];
    }
  }

  /** Python's `s.rstrip(chars)`: strips trailing characters found in `chars`, not the string `chars` as a suffix. */
  function RStrip(s: string, chars: string): string {
    RStripWhile(s, OneOf(chars))
  }

  /** Python's `s.strip()` with no argument. */
  function Strip(s: string): string {
    LStripWhile(RStripWhile(s, Whitespace), Whitespace)
  }

  /** Neither end of `s` is whitespace. */
  predicate Trimmed(s: string) {
    s == [] || (!IsSpace(s[0]) && !IsSpace(s[|s| - 1]))
  }

  /** `x` occurs in `s` as a contiguous block starting at `a`. */
  predicate IsInfixAt(x: string, s: string, a: int) {
    0 <= a && a + |x| <= |s| && s[a..a + |x|] == x
  }

  /** The result of `RStripWhile` is the only prefix whose removed tail lies in `cs` and that does not end in `cs`. */
  lemma {:induction false} RStripWhileUnique(p: string, q: string, drop: CharClass)
    requires forall i :: 0 <= i < |q| ==> Drops(drop, q[i])
    requires p == [] || !Drops(drop, p[|p| - 1])
    ensures RStripWhile(p + q, drop) == p
    decreases |q|
  {
    if q == [] {
      assert p + q == p;
    } else {
      var s := p + q;
      assert s[..|s| - 1] == p + q[..|q| - 1];
      RStripWhileUnique(p, q[..|q| - 1], drop);
    }
  }

  /** The result of `LStripWhile` on a block of stripped characters followed by a string that does not start with one. */
  lemma {:induction false} LStripWhileUnique(q: string, p: string, drop: CharClass)
    requires forall i :: 0 <= i < |q| ==> Drops(drop, q[i])
    requires p == [] || !Drops(drop, p[0])
    ensures LStripWhile(q + p, drop) == p
    decreases |q|
  {
    if q == [] {
      assert q + p == p;
    } else {
      assert (q + p)[1..] == q[1..] + p;
      LStripWhileUnique(q[1..], p, drop);
    }
  }

  /** `strip()` returns a contiguous block of its input with no whitespace at either end. */
  lemma {:induction false} StripSpec(s: string)
    ensures Trimmed(Strip(s))
    ensures IsInfixAt(Strip(s), s, |RStripWhile(s, Whitespace)| - |Strip(s)|)
    ensures exists a :: IsInfixAt(Strip(s), s, a)
  {
    var r := RStripWhile(s, Whitespace);
    StripEnds(r);
    StripBlock(s, r);
  }

  /** Stripping the left of a string that does not end in whitespace leaves a string trimmed at both ends. */
  lemma {:induction false} StripEnds(r: string)
    requires r == [] || !IsSpace(r[|r| - 1])
    ensures Trimmed(LStripWhile(r, Whitespace))
  {
    var t := LStripWhile(r, Whitespace);
    if t != [] {
      assert t[|t| - 1] == r[|r| - 1];
    }
  }

  /** The left-stripped part of a prefix `r` of `s` is the block of `s` that ends where `r` ends. */
  lemma {:induction false} StripBlock(s: string, r: string)
    requires |r| <= |s| && r == s[..|r|]
    ensures IsInfixAt(LStripWhile(r, Whitespace), s, |r| - |LStripWhile(r, Whitespace)|)
  {
    var t := LStripWhile(r, Whitespace);
    var a := |r| - |t|;
    PrefixSlice(s, r, a, |r|);
    assert r[a..|r|] == t;
  }

  /** A slice of a prefix of `s` is the same slice of `s`. */
  lemma {:induction false} PrefixSlice(s: string, p: string, a: int, b: int)
    requires |p| <= |s| && p == s[..|p|]
    requires 0 <= a <= b <= |p|
    ensures s[a..b] == p[a..b]
  {
    forall i | 0 <= i < b - a ensures s[a..b][i] == p[a..b][i] {
      assert s[a..b][i] == s[a + i] && p[a..b][i] == p[a + i];
    }
  }

  /** `strip()` of a prefix of `s` is a contiguous block of `s` with no whitespace at either end. */
  lemma {:induction false} StripOfPrefix(s: string, p: string)
    requires |p| <= |s| && p == s[..|p|]
    ensures Trimmed(Strip(p))
    ensures exists a :: IsInfixAt(Strip(p), s, a)
  {
    var t := Strip(p);
    StripSpec(p);
    var a := |RStripWhile(p, Whitespace)| - |t|;
    PrefixSlice(s, p, a, a + |t|);
    assert IsInfixAt(t, s, a);
  }

  /** `strip()` of a string padded by whitespace on both sides is the string itself, when its ends are not whitespace. */
  lemma {:induction false} StripPadded(w1: string, core: string, w2: string)
    requires forall i :: 0 <= i < |w1| ==> IsSpace(w1[i])
    requires forall i :: 0 <= i < |w2| ==> IsSpace(w2[i])
    requires Trimmed(core)
    ensures Strip(w1 + core + w2) == core
  {
    if core == [] {
      assert w1 + core + w2 == [] + (w1 + w2);
      RStripWhileUnique([], w1 + w2, Whitespace);
      assert Strip(w1 + core + w2) == LStripWhile([], Whitespace);
    } else {
      RStripWhileUnique(w1 + core, w2, Whitespace);
      assert (w1 + core)[|w1 + core| - 1] == core[|core| - 1];
      LStripWhileUnique(w1, core, Whitespace);
    }
  }

  /** `strip()` drops trailing whitespace after a string whose ends are not whitespace. */
  lemma {:induction false} StripRightPadded(core: string, w: string)
    requires forall i :: 0 <= i < |w| ==> IsSpace(w[i])
    requires Trimmed(core)
    ensures Strip(core + w) == core
  {
    StripPadded([], core, w);
    assert [] + core + w == core + w;
  }

  /** `strip()` leaves a string alone when neither end is whitespace. */
  lemma {:induction false} StripTrimmed(s: string)
    requires Trimmed(s)
    ensures Strip(s) == s
  {
    if s != [] {
      assert !IsSpace(s[|s| - 1]);
      assert !IsSpace(s[0]);
    }
  }

  // ---------------------------------------------------------------------------
  // Substrings

  predicate IsPrefix(p: string, s: string) {
    |p| <= |s| && s[..|p|] == p
  }

  function EndsWith(s: string, suffix: string): bool {
    |suffix| <= |s| && s[|s| - |suffix|..] == suffix
  }

  /** Python's `x in s` for two strings: `x` occurs somewhere in `s`. */
  predicate Contains(s: string, x: string)
    decreases |s|
  {
    IsPrefix(x, s) || (|s| > 0 && Contains(s[1..], x))
  }

  /** `Contains` holds exactly when there is a position where `x` occurs. */
  lemma {:induction false} ContainsIff(s: string, x: string)
    ensures Contains(s, x) <==> exists a :: IsInfixAt(x, s, a)
    decreases |s|
  {
    if |s| > 0 {
      ContainsIff(s[1..], x);
    }
    if Contains(s, x) {
      if IsPrefix(x, s) {
        assert IsInfixAt(x, s, 0);
      } else {
        var a :| IsInfixAt(x, s[1..], a);
        assert s[1..][a..a + |x|] == s[a + 1..a + 1 + |x|];
        assert IsInfixAt(x, s, a + 1);
      }
    }
    forall a | IsInfixAt(x, s, a) ensures Contains(s, x) {
      if a == 0 {
        assert s[..|x|] == x;
      } else {
        assert s[1..][a - 1..a - 1 + |x|] == s[a..a + |x|];
        assert IsInfixAt(x, s[1..], a - 1);
      }
    }
  }

  /** Every character of a string that occurs in `s` is a character of `s`. */
  lemma {:induction false} ContainedCharsOccur(s: string, x: string)
    ensures Contains(s, x) ==> forall k :: 0 <= k < |x| ==> x[k] in s
    decreases |s|
  {
    if |s| > 0 {
      ContainedCharsOccur(s[1..], x);
      if !IsPrefix(x, s) && Contains(s, x) {
        forall k | 0 <= k < |x| ensures x[k] in s {
          assert x[k] in s[1..];
        }
      }
    }
    if IsPrefix(x, s) {
      forall k | 0 <= k < |x| ensures x[k] in s {
        assert s[k] == x[k];
      }
    }
  }

  /** A string that has a character `s` lacks does not occur in `s`. */
  lemma {:induction false} MissingCharNotContained(s: string, x: string, c: char)
    requires c in x && c !in s
    ensures !Contains(s, x)
  {
    ContainedCharsOccur(s, x);
  }

  // ---------------------------------------------------------------------------
  // Case and replacement

  /** Lower-cases an ASCII letter; other characters are returned unchanged. */
  function LowerChar(c: char): char {
    if 'A' <= c <= 'Z' then (c as int + 32) as char else c
  }

  /** Python's `s.lower()`, for the ASCII letters. */
  function Lower(s: string): (r: string)
    ensures |r| == |s|
  {
    seq(|s|, i requires 0 <= i < |s| => LowerChar(s[i]))
  }

  /** `lower()` works character by character. */
  lemma {:induction false} LowerAt(s: string, i: int)
    requires 0 <= i < |s|
    ensures Lower(s)[i] == LowerChar(s[i])
    decreases i
  {
    if i > 0 {
      LowerAt(s[1..], i - 1);
    }
  }

  /** Lower-casing twice is lower-casing once. */
  lemma {:induction false} LowerIdempotent(s: string)
    ensures Lower(Lower(s)) == Lower(s)
  {
    forall i | 0 <= i < |s| ensures Lower(Lower(s))[i] == Lower(s)[i] {
      LowerAt(s, i);
      LowerAt(Lower(s), i);
    }
  }

  /** Python's `s.replace(x, '')` for one character `x`. */
  function RemoveAll(s: string, x: char): (r: string)
    ensures forall c :: c in r <==> c in s && c != x
  {
    if s == [] then []
    else if s[0] == x then RemoveAll(s[1..], x)
    else [s[0]] + RemoveAll(s[1..], x)
  }

  lemma {:induction false} RemoveAllAbsent(s: string, x: char)
    requires x !in s
    ensures RemoveAll(s, x) == s
    decreases |s|
  {
    if s != [] {
      assert s[0] != x;
      RemoveAllAbsent(s[1..], x);
      assert s == [s[0]] + s[1..];
    }
  }

  // ---------------------------------------------------------------------------
  // split and join

  /** Python's `sep.join(xs)`. */
  function Join(xs: seq<string>, sep: char): string
  {
    if |xs| == 0 then []
    else if |xs| == 1 then xs[0]
    else xs[0] + [sep] + Join(xs[1..], sep)
  }

  /** Python's `s.split(sep)` for a one-character separator: never empty, and joining the pieces gives `s` back. */
  function Split(s: string, sep: char): (r: seq<string>)
    ensures |r| >= 1
    ensures forall i :: 0 <= i < |r| ==> sep !in r[i]
    ensures Join(r, sep) == s
  {
    if s == [] then [[]]
    else
      var rest := Split(s[1..], sep);
      if s[0] == sep then
        assert Join([[]] + rest, sep) == [] + [sep] + Join(rest, sep);
        [[]] + rest
      else
        var r := [[s[0]] + rest[0]] + rest[1..];
        assert r[1..] == rest[1..];
        assert Join(r, sep) == [s[0]] + Join(rest, sep) by {
          if |rest| == 1 {
          } else {
            assert Join(rest, sep) == rest[0] + [sep] + Join(rest[1..], sep);
          }
        }
        r
  }

  lemma {:induction false} SplitPrefix(a: string, b: string, sep: char)
    requires sep !in a
    ensures Split(a + [sep] + b, sep) == [a] + Split(b, sep)
    ensures Split(a, sep) == [a]
    decreases |a|
  {
    if a == [] {
      assert a + [sep] + b == [sep] + b;
      assert ([sep] + b)[1..] == b;
    } else {
      assert (a + [sep] + b)[1..] == a[1..] + [sep] + b;
      SplitPrefix(a[1..], b, sep);
      assert [a[0]] + a[1..] == a;
    }
  }

  /** Splitting a join of separator-free pieces gives the pieces back (Python's `','.join(xs).split(',') == xs`). */
  lemma {:induction false} SplitJoin(xs: seq<string>, sep: char)
    requires |xs| >= 1
    requires forall i :: 0 <= i < |xs| ==> sep !in xs[i]
    ensures Split(Join(xs, sep), sep) == xs
    decreases |xs|
  {
    if |xs| == 1 {
      SplitPrefix(xs[0], [], sep);
    } else {
      SplitJoin(xs[1..], sep);
      SplitPrefix(xs[0], Join(xs[1..], sep), sep);
      assert [xs[0]] + xs[1..] == xs;
    }
  }

  // ---------------------------------------------------------------------------
  // Integers as decimal text

  predicate IsDigit(c: char) {
    '0' <= c <= '9'
  }

  predicate AllDigits(s: string) {
    forall i :: 0 <= i < |s| ==> IsDigit(s[i])
  }

  function DigitValue(c: char): nat
    requires IsDigit(c)
  {
    c as int - '0' as int
  }

  function DigitChar(d: nat): (c: char)
    requires d < 10
    ensures IsDigit(c) && DigitValue(c) == d
  {
    ('0' as int + d) as char
  }

  /** The number a string of decimal digits denotes, most significant digit first. */
  function DigitsValue(ds: string): nat
    requires AllDigits(ds)
  {
    if ds == [] then 0 else 10 * DigitsValue(ds[..|ds| - 1]) + DigitValue(ds[|ds| - 1])
  }

  /** The decimal digits of `n`, without leading zeros. */
  function NatToStr(n: nat): (s: string)
    ensures |s| >= 1 && AllDigits(s)
    ensures DigitsValue(s) == n
  {
    if n < 10 then [DigitChar(n)]
    else
      var s := NatToStr(n / 10) + [DigitChar(n % 10)];
      assert s[..|s| - 1] == NatToStr(n / 10);
      s
  }

  /** Python's `str(n)` for an integer. */
  function IntToStr(n: int): (s: string)
    ensures |s| >= 1 && IsDigit(s[|s| - 1])
    ensures forall i :: 0 <= i < |s| ==> IsDigit(s[i]) || (i == 0 && s[i] == '-' && n < 0)
  {
    if n < 0 then
      var ds := NatToStr(-n);
      assert forall i :: 1 <= i < |ds| + 1 ==> ("-" + ds)[i] == ds[i - 1];
      "-" + ds
    else NatToStr(n)
  }

  /**
   * The digit part Python's `int()` accepts in base 10: one or more ASCII
   * digits, where a single `_` may stand between two digits.
   */
  predicate IsDigitGroup(u: string) {
    |u| > 0 && forall i :: 0 <= i < |u| ==> DigitOrJoiner(u, i)
  }

  /** Position `i` of `u` holds a digit, or an underscore with a digit on each side. */
  predicate DigitOrJoiner(u: string, i: int)
    requires 0 <= i < |u|
  {
    IsDigit(u[i]) || (u[i] == '_' && 0 < i < |u| - 1 && IsDigit(u[i - 1]) && IsDigit(u[i + 1]))
  }

  function DigitGroupValue(u: string): Option<nat> {
    if IsDigitGroup(u) then
      var ds := RemoveAll(u, '_');
      assert AllDigits(ds) by {
        forall i | 0 <= i < |ds| ensures IsDigit(ds[i]) {
          assert ds[i] in ds;
          var j :| 0 <= j < |u| && u[j] == ds[i];
          assert DigitOrJoiner(u, j);
        }
      }
      Some(DigitsValue(ds))
    else
      None
  }

  /**
   * Python's `int(s)` in base 10 on ASCII text: surrounding whitespace is
   * ignored, then an optional sign and a digit group; anything else is a
   * `ValueError`, modelled as `None`.
   */
  function PyInt(s: string): Option<int> {
    var t := Strip(s);
    var signed := |t| > 0 && (t[0] == '-' || t[0] == '+');
    match DigitGroupValue(if signed then t[1..] else t)
    case None => None
    case Some(v) => Some(if signed && t[0] == '-' then -(v as int) else v as int)
  }

  lemma {:induction false} DigitsAreDigitGroup(ds: string)
    requires |ds| > 0 && AllDigits(ds)
    ensures DigitGroupValue(ds) == Some(DigitsValue(ds))
  {
    RemoveAllAbsent(ds, '_');
  }

  lemma {:induction false} DigitsTrimmed(ds: string)
    requires AllDigits(ds)
    ensures Trimmed(ds)
  {
  }

  /** `int()` of a plain digit string is the number its digits denote. */
  lemma {:induction false} PyIntOfDigits(ds: string)
    requires |ds| > 0 && AllDigits(ds)
    ensures PyInt(ds) == Some(DigitsValue(ds))
  {
    DigitsTrimmed(ds);
    StripTrimmed(ds);
    DigitsAreDigitGroup(ds);
  }

  /** `int(str(n)) == n`. */
  lemma {:induction false} PyIntOfIntToStr(n: int)
    ensures PyInt(IntToStr(n)) == Some(n)
  {
    if n < 0 {
      var ds := NatToStr(-n);
      var s := IntToStr(n);
      assert Trimmed(s) by {
        assert !IsSpace(s[0]) && !IsSpace(s[|s| - 1]);
      }
      StripTrimmed(s);
      assert s[1..] == ds;
      DigitsAreDigitGroup(ds);
    } else {
      PyIntOfDigits(NatToStr(n));
    }
  }

  // ---------------------------------------------------------------------------
  // Ordering of strings, as Python's `sorted` compares them

  /** Python's `a < b` on strings: code-point lexicographic order. */
  predicate StrLt(a: string, b: string)
    decreases |a|
  {
    if |a| == 0 then |b| > 0
    else if |b| == 0 then false
    else if a[0] != b[0] then a[0] < b[0]
    else StrLt(a[1..], b[1..])
  }

  lemma {:induction false} StrLtIrreflexive(a: string)
    ensures !StrLt(a, a)
    decreases |a|
  {
    if |a| > 0 {
      StrLtIrreflexive(a[1..]);
    }
  }

  lemma {:induction false} StrLtTransitive(a: string, b: string, c: string)
    requires StrLt(a, b) && StrLt(b, c)
    ensures StrLt(a, c)
    decreases |a|
  {
    if |a| > 0 && a[0] == b[0] && b[0] == c[0] {
      StrLtTransitive(a[1..], b[1..], c[1..]);
    }
  }

  lemma {:induction false} StrLtTotal(a: string, b: string)
    ensures a == b || StrLt(a, b) || StrLt(b, a)
    decreases |a|
  {
    if |a| > 0 && |b| > 0 && a[0] == b[0] {
      StrLtTotal(a[1..], b[1..]);
      if a[1..] == b[1..] {
        assert a == [a[0]] + a[1..] && b == [b[0]] + b[1..];
      }
    }
  }

  lemma {:induction false} StrLtAsymmetric(a: string, b: string)
    requires StrLt(a, b)
    ensures !StrLt(b, a)
  {
    if StrLt(b, a) {
      StrLtTransitive(a, b, a);
      StrLtIrreflexive(a);
    }
  }

  predicate StrictlySorted(xs: seq<string>) {
    forall i, j :: 0 <= i < j < |xs| ==> StrLt(xs[i], xs[j])
  }

  /** Every finite set of strings has a least element. */
  lemma {:induction false} LeastExists(c: set<string>)
    requires c != {}
    ensures exists m :: m in c && forall y :: y in c && y != m ==> StrLt(m, y)
    decreases |c|
  {
    var x :| x in c;
    if c == {x} {
      assert forall y :: y in c && y != x ==> StrLt(x, y);
    } else {
      LeastExists(c - {x});
      var m :| m in c - {x} && forall y :: y in c - {x} && y != m ==> StrLt(m, y);
      StrLtTotal(m, x);
      if StrLt(m, x) {
        assert forall y :: y in c && y != m ==> StrLt(m, y);
      } else {
        forall y | y in c && y != x ensures StrLt(x, y) {
          if y != m {
            StrLtTransitive(x, m, y);
          }
        }
      }
    }
  }

  /** The least element of a non-empty set of strings. */
  function Least(c: set<string>): (m: string)
    requires c != {}
    ensures m in c && forall y :: y in c && y != m ==> StrLt(m, y)
  {
    LeastExists(c);
    StrLtAsymmetricAll();
    var m :| m in c && forall y :: y in c && y != m ==> StrLt(m, y);
    m
  }

  lemma {:induction false} StrLtAsymmetricAll()
    ensures forall a, b :: StrLt(a, b) ==> !StrLt(b, a)
  {
    forall a, b | StrLt(a, b) ensures !StrLt(b, a) {
      StrLtAsymmetric(a, b);
    }
  }

  /** Python's `sorted(c)` for a set of strings: its elements, each once, in ascending order. */
  function Sorted(c: set<string>): (r: seq<string>)
    ensures forall x :: x in r <==> x in c
    ensures StrictlySorted(r)
    ensures |r| == |c|
    decreases |c|
  {
    if c == {} then []
    else
      var m := Least(c);
      var rest := Sorted(c - {m});
      [m] + rest
  }
}
