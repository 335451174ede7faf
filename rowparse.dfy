/**
 * Reading one search-result row: the integer fields, the vote count inside
 * the rating label, and the cleaning of the title. The markup navigation
 * that finds each piece of text is not modelled: a row arrives as the texts
 * that navigation would have found.
 */
module RowParse {
  import opened Wrappers
  import opened PyText
  import opened Model

  // ---------------------------------------------------------------------------
  // Integer fields

  /** A field that is not a decimal integer makes Python's `int()` raise `ValueError`. */
  datatype ParseError = ValueError(text: string)

  /** The text `parse_int` hands to `int()`: stripped, with every comma deleted. */
  function IntText(s: string): string {
    RemoveAll(Strip(s), ',')
  }

  /** `parse_int`: strip, delete every comma, then `int()`. */
  function ParseInt(s: string): Option<int> {
    PyInt(IntText(s))
  }

  predicate DigitOrComma(c: char) {
    IsDigit(c) || c == ','
  }

  /**
   * A comma-grouped number padded with whitespace parses to the number its
   * digits denote, read in order.
   */
  lemma {:induction false} ParseIntGrouped(w1: string, core: string, w2: string)
    requires forall i :: 0 <= i < |w1| ==> IsSpace(w1[i])
    requires forall i :: 0 <= i < |w2| ==> IsSpace(w2[i])
    requires forall i :: 0 <= i < |core| ==> DigitOrComma(core[i])
    requires exists i :: 0 <= i < |core| && IsDigit(core[i])
    ensures AllDigits(RemoveAll(core, ','))
    ensures ParseInt(w1 + core + w2) == Some(DigitsValue(RemoveAll(core, ',')))
  {
    StripPadded(w1, core, w2);
    ParseIntOfGrouped(core);
    StripTrimmed(core);
  }

  /** A comma-grouped number without padding. */
  lemma {:induction false} ParseIntOfGrouped(core: string)
    requires forall i :: 0 <= i < |core| ==> DigitOrComma(core[i])
    requires exists i :: 0 <= i < |core| && IsDigit(core[i])
    ensures AllDigits(RemoveAll(core, ','))
    ensures ParseInt(core) == Some(DigitsValue(RemoveAll(core, ',')))
  {
    StripTrimmed(core);
    var ds := RemoveAll(core, ',');
    forall i | 0 <= i < |ds| ensures IsDigit(ds[i]) {
      assert ds[i] in ds;
      var j :| 0 <= j < |core| && core[j] == ds[i];
      assert DigitOrComma(core[j]);
    }
    var k :| 0 <= k < |core| && IsDigit(core[k]);
    assert core[k] in ds;
    PyIntOfDigits(ds);
  }

  /** `parse_int(str(n)) == n`: the decimal text of any integer parses back to it. */
  lemma {:induction false} ParseIntOfIntToStr(n: int)
    ensures ParseInt(IntToStr(n)) == Some(n)
  {
    var s := IntToStr(n);
    assert Trimmed(s) by {
      assert !IsSpace(s[0]) && !IsSpace(s[|s| - 1]);
    }
    StripTrimmed(s);
    assert ',' !in s;
    RemoveAllAbsent(s, ',');
    PyIntOfIntToStr(n);
  }

  /** The vote count label reads "<n> Votes": the count is the text before the first space. */
  function VotesToken(attr: string): (t: string)
    ensures ' ' !in t
    ensures IsPrefix(t, attr)
    ensures t == attr || attr[|t|] == ' '
  {
    var parts := Split(attr, ' ');
    if |parts| == 1 then
      parts[0]
    else
      assert attr == parts[0] + [' '] + Join(parts[1..], ' ');
      assert attr[..|parts[0]|] == parts[0];
      parts[0]
  }

  /** `parse_int(attr.split(' ')[0])`. */
  function ParseVotes(attr: string): Option<int> {
    ParseInt(VotesToken(attr))
  }

  /** The token is everything before the first space. */
  lemma {:induction false} VotesTokenBeforeSpace(core: string, rest: string)
    requires ' ' !in core
    ensures VotesToken(core + [' '] + rest) == core
  {
    SplitPrefix(core, rest, ' ');
  }

  /** A label "<grouped number> Votes" yields that number. */
  lemma {:induction false} ParseVotesOfLabel(core: string)
    requires forall i :: 0 <= i < |core| ==> DigitOrComma(core[i])
    requires exists i :: 0 <= i < |core| && IsDigit(core[i])
    ensures AllDigits(RemoveAll(core, ','))
    ensures ParseVotes(core + " Votes") == Some(DigitsValue(RemoveAll(core, ',')))
  {
    assert ' ' !in core by {
      assert forall i :: 0 <= i < |core| ==> core[i] != ' ';
    }
    VotesTokenBeforeSpace(core, "Votes");
    assert core + " Votes" == core + [' '] + "Votes";
    ParseIntOfGrouped(core);
  }

  // ---------------------------------------------------------------------------
  // Title cleaning

  /** The decorations the crawler strips from titles, in the order it tries them. */
  const Suffixes: seq<string> := ["[Official Colored]", "(Anthology)", "(Doujinshi)", "(Web Comic)", "(Webcomic)"]

  /**
   * One turn of the cleaning loop for decoration `s`: if `s` occurs anywhere
   * in the title, trailing characters from the character set of `s` are
   * stripped; then the same for the lower-cased `s`, looked up in the updated
   * title. What is left is always a prefix of the title.
   */
  function StripPass(title: string, s: string): (r: string)
    ensures |r| <= |title| && r == title[..|r|]
  {
    var t := if Contains(title, s) then RStrip(title, s) else title;
    var r := if Contains(t, Lower(s)) then RStrip(t, Lower(s)) else t;
    assert title[..|t|][..|r|] == title[..|r|];
    r
  }

  /** Only trailing characters of the two character sets of a decoration are ever removed. */
  lemma {:induction false} StripPassRemovesOnlyDecorationChars(title: string, s: string)
    ensures forall i :: |StripPass(title, s)| <= i < |title| ==> title[i] in s || title[i] in Lower(s)
  {
    var t := if Contains(title, s) then RStrip(title, s) else title;
    var r := StripPass(title, s);
    assert forall i :: |t| <= i < |title| ==> title[i] in s;
    assert forall i :: |r| <= i < |t| ==> t[i] in Lower(s);
    assert forall i :: |r| <= i < |t| ==> title[i] == t[i];
  }

  /**
   * A pass leaves the title alone when neither form of the decoration occurs
   * in it, and also when the title does not end in a character of either
   * form, wherever else the decoration occurs.
   */
  lemma {:induction false} StripPassUnchanged(title: string, s: string)
    ensures !Contains(title, s) && !Contains(title, Lower(s)) ==> StripPass(title, s) == title
    ensures (title == [] || (title[|title| - 1] !in s && title[|title| - 1] !in Lower(s))) ==> StripPass(title, s) == title
  {
  }

  /** The cleaning loop run over the decorations `ss` in order. */
  function StripPasses(title: string, ss: seq<string>): (r: string)
    ensures |r| <= |title| && r == title[..|r|]
    decreases |ss|
  {
    if ss == [] then title
    else
      var t := StripPass(title, ss[0]);
      var r := StripPasses(t, ss[1..]);
      assert title[..|t|][..|r|] == title[..|r|];
      r
  }

  /** The title as the crawler stores it: all decoration passes, then `strip()`. */
  function Cleaned(raw: string): string {
    Strip(StripPasses(raw, Suffixes))
  }

  /** Any sequence of passes followed by `strip()` yields a contiguous piece of the title with no whitespace at either end. */
  lemma {:induction false} PassesThenStripIsTrimmedInfix(raw: string, ss: seq<string>)
    ensures Trimmed(Strip(StripPasses(raw, ss)))
    ensures exists a :: IsInfixAt(Strip(StripPasses(raw, ss)), raw, a)
  {
    StripOfPrefix(raw, StripPasses(raw, ss));
  }

  /** Cleaning yields a contiguous piece of the raw title with no whitespace at either end. */
  lemma {:induction false} CleanedIsTrimmedInfix(raw: string)
    ensures Trimmed(Cleaned(raw))
    ensures exists a :: IsInfixAt(Cleaned(raw), raw, a)
  {
    PassesThenStripIsTrimmedInfix(raw, Suffixes);
  }

  /** The cleaning loop of `__parse_manga_from_html`, which reassigns `title` once per decoration. */
  method CleanTitle(raw: string) returns (title: string)
    ensures title == Cleaned(raw)
    ensures Trimmed(title)
    ensures exists a :: IsInfixAt(title, raw, a)
  {
    title := raw;
    for k := 0 to |Suffixes|
      invariant StripPasses(title, Suffixes[k..]) == StripPasses(raw, Suffixes)
    {
      var s := Suffixes[k];
      assert Suffixes[k..][1..] == Suffixes[k + 1..];
      if Contains(title, s) {
        title := RStrip(title, s);
      }
      if Contains(title, Lower(s)) {
        title := RStrip(title, Lower(s));
      }
    }
    title := Strip(title);
    CleanedIsTrimmedInfix(raw);
  }

  /** The lower-case form of `s` does not occur in a text that lacks the lower-case form of one of its characters. */
  lemma {:induction false} LowerFormMissing(t: string, s: string, j: int)
    requires 0 <= j < |s| && LowerChar(s[j]) !in t
    ensures !Contains(t, Lower(s))
  {
    LowerAt(s, j);
    MissingCharNotContained(t, Lower(s), LowerChar(s[j]));
  }

  /** A pass for a decoration neither of whose forms occurs in the title (shown by a missing character) changes nothing. */
  lemma {:induction false} PassSkips(title: string, s: string, k: int, j: int)
    requires 0 <= k < |s| && s[k] !in title
    requires 0 <= j < |s| && LowerChar(s[j]) !in title
    ensures StripPass(title, s) == title
  {
    MissingCharNotContained(title, s, s[k]);
    LowerFormMissing(title, s, j);
  }

  /**
   * A pass for a decoration that occurs at `a` cuts the title back to `keep`,
   * the longest prefix not ending in a character of the decoration, when the
   * lower-case form does not occur in `keep`.
   */
  lemma {:induction false} PassStrips(title: string, s: string, a: int, keep: string)
    requires IsInfixAt(s, title, a)
    requires |keep| <= |title| && title[..|keep|] == keep
    requires forall i :: |keep| <= i < |title| ==> title[i] in s
    requires keep == [] || keep[|keep| - 1] !in s
    requires !Contains(keep, Lower(s))
    ensures StripPass(title, s) == keep
  {
    assert Contains(title, s) by {
      ContainsIff(title, s);
    }
    assert RStrip(title, s) == keep by {
      assert title == keep + title[|keep|..];
      RStripWhileUnique(keep, title[|keep|..], OneOf(s));
    }
  }

  /** Five passes in a row, spelled out. */
  lemma {:induction false} PassesUnfold(title: string, ss: seq<string>)
    requires |ss| == 5
    ensures StripPasses(title, ss) ==
      StripPass(StripPass(StripPass(StripPass(StripPass(title, ss[0]), ss[1]), ss[2]), ss[3]), ss[4])
  {
    var t1 := StripPass(title, ss[0]);
    var t2 := StripPass(t1, ss[1]);
    var t3 := StripPass(t2, ss[2]);
    var t4 := StripPass(t3, ss[3]);
    var t5 := StripPass(t4, ss[4]);
    assert ss[1..][1..][1..][1..][1..] == [];
    assert StripPasses(t5, []) == t5;
    assert StripPasses(t4, ss[4..]) == t5;
    assert ss[3..][1..] == ss[4..];
    assert StripPasses(t3, ss[3..]) == t5;
    assert ss[2..][1..] == ss[3..];
    assert StripPasses(t2, ss[2..]) == t5;
    assert ss[1..][1..] == ss[2..];
    assert StripPasses(t1, ss[1..]) == t5;
  }

  /**
   * Five passes over a title in which only the fourth decoration occurs, at
   * `a`: the title is cut back to `keep`, the longest prefix not ending in a
   * character of that decoration.
   */
  lemma {:induction false} OnlyFourthPassActs(t: string, ss: seq<string>, a: int, keep: string)
    requires |ss| == 5 && |ss[0]| > 0 && |ss[1]| > 1 && |ss[2]| > 1 && |ss[3]| > 0 && |ss[4]| > 0
    requires ss[0][0] !in t && LowerChar(ss[0][0]) !in t
    requires ss[1][1] !in t && LowerChar(ss[1][1]) !in t
    requires ss[2][1] !in t && LowerChar(ss[2][1]) !in t
    requires IsInfixAt(ss[3], t, a)
    requires |keep| <= |t| && t[..|keep|] == keep
    requires forall i :: |keep| <= i < |t| ==> t[i] in ss[3]
    requires keep == [] || keep[|keep| - 1] !in ss[3]
    requires LowerChar(ss[3][0]) !in keep
    requires ss[4][0] !in keep && LowerChar(ss[4][0]) !in keep
    ensures StripPasses(t, ss) == keep
  {
    PassesUnfold(t, ss);
    PassSkips(t, ss[0], 0, 0);
    PassSkips(t, ss[1], 1, 1);
    PassSkips(t, ss[2], 1, 1);
    LowerFormMissing(keep, ss[3], 0);
    PassStrips(t, ss[3], a, keep);
    PassSkips(keep, ss[4], 0, 0);
  }

  /** The same, for a title in which only the third decoration occurs. */
  lemma {:induction false} OnlyThirdPassActs(t: string, ss: seq<string>, a: int, keep: string)
    requires |ss| == 5 && |ss[0]| > 0 && |ss[1]| > 1 && |ss[2]| > 1 && |ss[3]| > 1 && |ss[4]| > 1
    requires ss[0][0] !in t && LowerChar(ss[0][0]) !in t
    requires ss[1][1] !in t && LowerChar(ss[1][1]) !in t
    requires IsInfixAt(ss[2], t, a)
    requires |keep| <= |t| && t[..|keep|] == keep
    requires forall i :: |keep| <= i < |t| ==> t[i] in ss[2]
    requires keep == [] || keep[|keep| - 1] !in ss[2]
    requires LowerChar(ss[2][1]) !in keep
    requires ss[3][1] !in keep && LowerChar(ss[3][1]) !in keep
    requires ss[4][1] !in keep && LowerChar(ss[4][1]) !in keep
    ensures StripPasses(t, ss) == keep
  {
    PassesUnfold(t, ss);
    PassSkips(t, ss[0], 0, 0);
    PassSkips(t, ss[1], 1, 1);
    LowerFormMissing(keep, ss[2], 1);
    PassStrips(t, ss[2], a, keep);
    PassSkips(keep, ss[3], 1, 1);
    PassSkips(keep, ss[4], 1, 1);
  }

  /** The characters of "Noblesse " and "(Web Comic)" that decide each pass. */
  lemma {:induction false} NoblesseFacts(w: string, d: string)
    requires w == "Noblesse " && d == "(Web Comic)"
    ensures d == Suffixes[3] && Suffixes[3][0] == '(' && Suffixes[4][0] == '('
    ensures Suffixes[0][0] == '[' && Suffixes[1][1] == 'A' && Suffixes[2][1] == 'D'
    ensures forall c :: c in w + d ==> c !in "[AaDd"
    ensures w[6] == 's' && 's' !in d && '(' !in w && forall i :: 7 <= i < |w| ==> w[i] in d
    ensures Trimmed(w[..7])
  {
  }

  /**
   * `rstrip` reads its argument as a set of characters, so a title whose
   * last word is spelled with letters of the decoration loses them too:
   * "Noblesse (Web Comic)" is stored as "Nobless".
   */
  lemma {:induction false} NoblesseLosesLetter(w: string, d: string)
    requires w == "Noblesse " && d == "(Web Comic)"
    ensures Cleaned(w + d) == w[..7]
  {
    NoblesseFacts(w, d);
    var t := w + d;
    assert t[|w|..|w| + |d|] == d;
    assert t[..7] == w[..7];
    assert forall i :: |w| <= i < |t| ==> t[i] == d[i - |w|];
    OnlyFourthPassActs(t, Suffixes, |w|, w[..7]);
    StripTrimmed(w[..7]);
  }

  /** The characters of "Foo " and "(Doujinshi)" that decide each pass. */
  lemma {:induction false} DoujinshiFacts(w: string, d: string)
    requires w == "Foo " && d == "(Doujinshi)"
    ensures d == Suffixes[2] && Suffixes[2][1] == 'D'
    ensures Suffixes[0][0] == '[' && Suffixes[1][1] == 'A' && Suffixes[3][1] == 'W' && Suffixes[4][1] == 'W'
    ensures forall c :: c in w + d ==> c !in "[AadWw"
    ensures 'd' !in w && 'W' !in w && 'w' !in w
    ensures ' ' !in d
  {
  }

  /** What `strip()` makes of "Foo " and of "Foo (Doujinshi) ". */
  lemma {:induction false} DoujinshiStrips(w: string, d: string)
    requires w == "Foo " && d == "(Doujinshi)"
    ensures Strip(w) == w[..3] && Strip(w + d + " ") == w + d
  {
    assert w == w[..3] + " ";
    StripRightPadded(w[..3], " ");
    StripRightPadded(w + d, " ");
  }

  /** With a trailing space after it, "(Doujinshi)" is not removed: no pass changes the title. */
  lemma {:induction false} PaddedDoujinshiKept(w: string, d: string)
    requires w == "Foo " && d == "(Doujinshi)"
    ensures Cleaned(w + d + " ") == w + d
  {
    DoujinshiFacts(w, d);
    DoujinshiStrips(w, d);
    var t := w + d + " ";
    assert t[|w|..|w| + |d|] == d;
    assert forall c :: c in t ==> c in w + d || c == ' ';
    OnlyThirdPassActs(t, Suffixes, |w|, t);
  }

  /** Without the trailing space, the pass for "(Doujinshi)" cuts it off. */
  lemma {:induction false} DoujinshiRemoved(w: string, d: string)
    requires w == "Foo " && d == "(Doujinshi)"
    ensures Cleaned(w + d) == w[..3]
  {
    DoujinshiFacts(w, d);
    DoujinshiStrips(w, d);
    var t := w + d;
    assert t[|w|..|w| + |d|] == d;
    assert t[..|w|] == w;
    assert forall i :: |w| <= i < |t| ==> t[i] == d[i - |w|];
    OnlyThirdPassActs(t, Suffixes, |w|, w);
  }

  /**
   * Cleaning is not idempotent: trailing whitespace stops `rstrip` early, so
   * "Foo (Doujinshi) " keeps its decoration on the first cleaning and loses
   * it on the second.
   */
  lemma {:induction false} CleanedNotIdempotent(w: string, d: string)
    requires w == "Foo " && d == "(Doujinshi)"
    ensures Cleaned(w + d + " ") == w + d
    ensures Cleaned(Cleaned(w + d + " ")) == w[..3]
  {
    PaddedDoujinshiKept(w, d);
    DoujinshiRemoved(w, d);
  }

  // ---------------------------------------------------------------------------
  // Title cleaning as evidently intended

  /** Python's `s.removesuffix(x)`: drops `x` from the end of `s` when `s` ends with it. */
  function RemoveSuffix(s: string, x: string): (r: string)
    ensures s == r + x || (r == s && !EndsWith(s, x))
  {
    if EndsWith(s, x) then
      assert s == s[..|s| - |x|] + s[|s| - |x|..];
      s[..|s| - |x|]
    else s
  }

  function Concat(parts: seq<string>): string {
    if parts == [] then [] else parts[0] + Concat(parts[1..])
  }

  lemma {:induction false} ConcatAppend(a: seq<string>, b: seq<string>)
    ensures Concat(a + b) == Concat(a) + Concat(b)
    decreases |a|
  {
    if a == [] {
      assert a + b == b;
    } else {
      assert (a + b)[0] == a[0];
      assert (a + b)[1..] == a[1..] + b;
      ConcatAppend(a[1..], b);
    }
  }

  /** `x` is one of the decorations `ss`, in its given or its lower-case form. */
  predicate IsDecorationOf(x: string, ss: seq<string>) {
    exists k :: 0 <= k < |ss| && (x == ss[k] || x == Lower(ss[k]))
  }

  /** One intended pass: remove the decoration, then its lower-case form, each only as a suffix. */
  function IntendedPass(title: string, s: string): string {
    RemoveSuffix(RemoveSuffix(title, s), Lower(s))
  }

  function IntendedPasses(title: string, ss: seq<string>): string
    decreases |ss|
  {
    if ss == [] then title else IntendedPasses(IntendedPass(title, ss[0]), ss[1..])
  }

  /** The corrected cleaning: `removesuffix` in place of `rstrip`, then `strip()`. */
  function CleanedIntended(raw: string): string {
    Strip(IntendedPasses(raw, Suffixes))
  }

  /** The decorations one intended pass cuts off, in the order they stood in the title. */
  function PassPieces(title: string, s: string): (r: seq<string>)
    ensures forall i :: 0 <= i < |r| ==> r[i] == s || r[i] == Lower(s)
  {
    var t1 := RemoveSuffix(title, s);
    var t2 := RemoveSuffix(t1, Lower(s));
    (if t2 == t1 then [] else [Lower(s)]) + (if t1 == title then [] else [s])
  }

  /** The decorations all intended passes cut off, in the order they stood in the title. */
  function RemovedPieces(title: string, ss: seq<string>): seq<string>
    decreases |ss|
  {
    if ss == [] then []
    else RemovedPieces(IntendedPass(title, ss[0]), ss[1..]) + PassPieces(title, ss[0])
  }

  lemma {:induction false} IntendedPassRemovesPieces(title: string, s: string)
    ensures title == IntendedPass(title, s) + Concat(PassPieces(title, s))
  {
    var t1 := RemoveSuffix(title, s);
    var t2 := RemoveSuffix(t1, Lower(s));
    assert Concat([s]) == s + Concat([]);
    assert Concat([Lower(s)]) == Lower(s) + Concat([]);
    ConcatAppend(if t2 == t1 then [] else [Lower(s)], if t1 == title then [] else [s]);
  }

  lemma {:induction false} RegroupPieces(title: string, t: string, kept: string, rest: string, first: string, both: string)
    requires title == t + first && t == kept + rest && both == rest + first
    ensures title == kept + both
  {
    assert (kept + rest) + first == kept + (rest + first);
  }

  /**
   * The corrected passes only ever cut whole decorations off the end: the
   * title is what is kept followed by the removed decorations.
   */
  lemma {:induction false} IntendedRemovesWholeDecorations(title: string, ss: seq<string>)
    ensures title == IntendedPasses(title, ss) + Concat(RemovedPieces(title, ss))
    decreases |ss|
  {
    if ss == [] {
      assert title == title + Concat([]);
    } else {
      var t := IntendedPass(title, ss[0]);
      var kept := IntendedPasses(t, ss[1..]);
      var rest := RemovedPieces(t, ss[1..]);
      var first := PassPieces(title, ss[0]);
      IntendedPassRemovesPieces(title, ss[0]);
      IntendedRemovesWholeDecorations(t, ss[1..]);
      ConcatAppend(rest, first);
      RegroupPieces(title, t, kept, Concat(rest), Concat(first), Concat(rest + first));
    }
  }

  /** A decoration of the later passes is a decoration of all of them. */
  lemma {:induction false} DecorationOfTail(x: string, ss: seq<string>)
    requires |ss| > 0 && IsDecorationOf(x, ss[1..])
    ensures IsDecorationOf(x, ss)
  {
    var k :| 0 <= k < |ss[1..]| && (x == ss[1..][k] || x == Lower(ss[1..][k]));
    assert ss[k + 1] == ss[1..][k];
  }

  /** The corrected cleaning also yields a contiguous piece of the raw title with no whitespace at either end. */
  lemma {:induction false} CleanedIntendedIsTrimmedInfix(raw: string)
    ensures Trimmed(CleanedIntended(raw))
    ensures exists a :: IsInfixAt(CleanedIntended(raw), raw, a)
  {
    var kept := IntendedPasses(raw, Suffixes);
    IntendedRemovesWholeDecorations(raw, Suffixes);
    assert raw[..|kept|] == kept;
    StripOfPrefix(raw, kept);
  }

  /** Every piece the corrected passes remove is one of the decorations, in its given or lower-case form. */
  lemma {:induction false} RemovedPiecesAreDecorations(title: string, ss: seq<string>)
    ensures forall i :: 0 <= i < |RemovedPieces(title, ss)| ==> IsDecorationOf(RemovedPieces(title, ss)[i], ss)
    decreases |ss|
  {
    if ss != [] {
      var t := IntendedPass(title, ss[0]);
      var rest := RemovedPieces(t, ss[1..]);
      var first := PassPieces(title, ss[0]);
      RemovedPiecesAreDecorations(t, ss[1..]);
      var parts := rest + first;
      assert parts == RemovedPieces(title, ss);
      forall i | 0 <= i < |parts| ensures IsDecorationOf(parts[i], ss) {
        if i < |rest| {
          DecorationOfTail(rest[i], ss);
        } else {
          assert parts[i] == first[i - |rest|];
          assert parts[i] == ss[0] || parts[i] == Lower(ss[0]);
          assert 0 < |ss|;
        }
      }
    }
  }

  /** A corrected pass changes nothing when the title ends with neither form of the decoration. */
  lemma {:induction false} IntendedPassSkips(t: string, s: string)
    requires !EndsWith(t, s) && !EndsWith(t, Lower(s))
    ensures IntendedPass(t, s) == t
  {
  }

  /** A corrected pass cuts the decoration off a title `w + s`, when the lower-case form does not end `w`. */
  lemma {:induction false} IntendedPassCuts(w: string, s: string)
    requires !EndsWith(w, Lower(s))
    ensures IntendedPass(w + s, s) == w
  {
    var t := w + s;
    assert t[|t| - |s|..] == s;
    assert RemoveSuffix(t, s) == w;
  }

  /** A text whose `k`-th character from the end differs from that of the lower-case form of `s` does not end with it. */
  lemma {:induction false} LowerEndDiffers(t: string, s: string, k: int)
    requires 0 < k <= |s| && k <= |t|
    requires t[|t| - k] != LowerChar(s[|s| - k])
    ensures !EndsWith(t, Lower(s))
  {
    LowerAt(s, |s| - k);
  }

  /** A text whose `k`-th character from the end differs from that of both forms of `s` ends with neither. */
  lemma {:induction false} EndsWithNeither(t: string, s: string, k: int)
    requires 0 < k <= |s| && k <= |t|
    requires t[|t| - k] != s[|s| - k] && t[|t| - k] != LowerChar(s[|s| - k])
    ensures !EndsWith(t, s) && !EndsWith(t, Lower(s))
  {
    LowerEndDiffers(t, s, k);
  }

  /** Five corrected passes in a row, spelled out. */
  lemma {:induction false} IntendedPassesUnfold(title: string, ss: seq<string>)
    requires |ss| == 5
    ensures IntendedPasses(title, ss) ==
      IntendedPass(IntendedPass(IntendedPass(IntendedPass(IntendedPass(title, ss[0]), ss[1]), ss[2]), ss[3]), ss[4])
  {
    var t1 := IntendedPass(title, ss[0]);
    var t2 := IntendedPass(t1, ss[1]);
    var t3 := IntendedPass(t2, ss[2]);
    var t4 := IntendedPass(t3, ss[3]);
    var t5 := IntendedPass(t4, ss[4]);
    assert ss[1..][1..][1..][1..][1..] == [];
    assert IntendedPasses(t5, []) == t5;
    assert IntendedPasses(t4, ss[4..]) == t5;
    assert ss[3..][1..] == ss[4..];
    assert IntendedPasses(t3, ss[3..]) == t5;
    assert ss[2..][1..] == ss[3..];
    assert IntendedPasses(t2, ss[2..]) == t5;
    assert ss[1..][1..] == ss[2..];
    assert IntendedPasses(t1, ss[1..]) == t5;
  }

  /** The characters of "Noblesse " and "(Web Comic)" that decide each corrected pass. */
  lemma {:induction false} NoblesseIntendedFacts(w: string, d: string)
    requires w == "Noblesse " && d == "(Web Comic)"
    ensures d == Suffixes[3] && |w| == 9 && |d| == 11
    ensures |Suffixes[0]| == 18 && |Suffixes[1]| == 11 && |Suffixes[2]| == 11 && |Suffixes[4]| == 10
    ensures Suffixes[0][17] == ']' && Suffixes[1][9] == 'y' && Suffixes[2][9] == 'i'
    ensures d[10] == ')' && d[9] == 'c' && Suffixes[3][10] == ')' && Suffixes[4][9] == ')'
    ensures w[8] == ' ' && Strip(w) == w[..8]
  {
    assert Trimmed(w[..8]);
    assert w == w[..8] + " ";
    StripRightPadded(w[..8], " ");
  }

  /** The corrected cleaning keeps the whole title "Noblesse". */
  lemma {:induction false} NoblesseKeptWhenIntended(w: string, d: string)
    requires w == "Noblesse " && d == "(Web Comic)"
    ensures CleanedIntended(w + d) == w[..8]
  {
    NoblesseIntendedFacts(w, d);
    var ss := Suffixes;
    var t := w + d;
    assert t[|t| - 1] == d[10] && t[|t| - 2] == d[9];
    EndsWithNeither(t, ss[0], 1);
    IntendedPassSkips(t, ss[0]);
    EndsWithNeither(t, ss[1], 2);
    IntendedPassSkips(t, ss[1]);
    EndsWithNeither(t, ss[2], 2);
    IntendedPassSkips(t, ss[2]);
    LowerEndDiffers(w, ss[3], 1);
    IntendedPassCuts(w, ss[3]);
    EndsWithNeither(w, ss[4], 1);
    IntendedPassSkips(w, ss[4]);
    OnlyFourthIntendedPassActs(t, ss, w);
  }

  /** Five corrected passes of which only the fourth changes the title. */
  lemma {:induction false} OnlyFourthIntendedPassActs(t: string, ss: seq<string>, keep: string)
    requires |ss| == 5
    requires IntendedPass(t, ss[0]) == t && IntendedPass(t, ss[1]) == t && IntendedPass(t, ss[2]) == t
    requires IntendedPass(t, ss[3]) == keep && IntendedPass(keep, ss[4]) == keep
    ensures IntendedPasses(t, ss) == keep
  {
    IntendedPassesUnfold(t, ss);
  }

  // ---------------------------------------------------------------------------
  // One row

  /** The texts the markup navigation finds in one result row. */
  datatype RawRow = RawRow(
    title: string,        // text of the title link
    href: string,         // target of the first link
    rating: real,         // the community rating, already read as a number
    ratingLabel: string,  // the rating element's title attribute, "<n> Votes"
    followsText: string,  // text after the Follows indicator
    viewsText: string     // text after the Views indicator
  )

  /**
   * `__parse_manga_from_html`: an empty title gives `None`; otherwise the
   * votes, follows and views are parsed in that order, and the first one
   * that is not an integer raises `ValueError` with the text `int()` was
   * given. The title is cleaned as written (`Cleaned`).
   */
  function ParseRow(row: RawRow): (r: Result<Option<Manga>, ParseError>)
    ensures r == Ok(None) <==> row.title == ""
    ensures r.Err? <==>
      row.title != "" && (ParseVotes(row.ratingLabel).None? || ParseInt(row.followsText).None? || ParseInt(row.viewsText).None?)
    ensures r.Err? ==> PyInt(r.error.text).None?
    ensures r.Ok? && r.value.Some? ==> r.value.value.path == row.href && Trimmed(r.value.value.name)
                                        && exists a :: IsInfixAt(r.value.value.name, row.title, a)
    ensures r.Ok? && r.value.Some? ==>
      r.value.value == Manga(row.href, Cleaned(row.title), row.rating, ParseVotes(row.ratingLabel).value,
                             ParseInt(row.viewsText).value, ParseInt(row.followsText).value)
  {
    if row.title == "" then Ok(None)
    else
      match ParseVotes(row.ratingLabel)
      case None => Err(ValueError(IntText(VotesToken(row.ratingLabel))))
      case Some(votes) =>
        match ParseInt(row.followsText)
        case None => Err(ValueError(IntText(row.followsText)))
        case Some(follows) =>
          match ParseInt(row.viewsText)
          case None => Err(ValueError(IntText(row.viewsText)))
          case Some(views) =>
            CleanedIsTrimmedInfix(row.title);
            Ok(Some(Manga(row.href, Cleaned(row.title), row.rating, votes, views, follows)))
  }

  /**
   * The row parser with the corrected cleaning: the same outcome as
   * `ParseRow`, with the name cleaned by `CleanedIntended`.
   */
  function ParseRowIntended(row: RawRow): (r: Result<Option<Manga>, ParseError>)
    ensures r.Ok? <==> ParseRow(row).Ok?
    ensures r.Err? ==> r == ParseRow(row)
    ensures r.Ok? ==> (r.value.Some? <==> ParseRow(row).value.Some?)
    ensures r.Ok? && r.value.Some? ==> var m := ParseRow(row).value.value;
      r.value.value.path == m.path && r.value.value.rating == m.rating && r.value.value.votes == m.votes
      && r.value.value.views == m.views && r.value.value.follows == m.follows
      && Trimmed(r.value.value.name) && exists a :: IsInfixAt(r.value.value.name, row.title, a)
  {
    match ParseRow(row)
    case Ok(Some(m)) =>
      CleanedIntendedIsTrimmedInfix(row.title);
      Ok(Some(m.(name := CleanedIntended(row.title))))
    case other => other
  }

  /**
   * A row whose counters are well-formed numbers, the follows and views
   * possibly padded with whitespace, yields a manga carrying those numbers, named by the cleaning as written; the corrected parser
   * gives the same manga named by the corrected cleaning.
   */
  lemma {:induction false} ParseRowWellFormed(row: RawRow, votes: string, f1: string, follows: string, f2: string,
                                              v1: string, views: string, v2: string)
    requires row.title != ""
    requires row.ratingLabel == votes + " Votes"
    requires row.followsText == f1 + follows + f2 && row.viewsText == v1 + views + v2
    requires forall i :: 0 <= i < |f1| ==> IsSpace(f1[i])
    requires forall i :: 0 <= i < |f2| ==> IsSpace(f2[i])
    requires forall i :: 0 <= i < |v1| ==> IsSpace(v1[i])
    requires forall i :: 0 <= i < |v2| ==> IsSpace(v2[i])
    requires forall i :: 0 <= i < |votes| ==> DigitOrComma(votes[i])
    requires forall i :: 0 <= i < |follows| ==> DigitOrComma(follows[i])
    requires forall i :: 0 <= i < |views| ==> DigitOrComma(views[i])
    requires exists i :: 0 <= i < |votes| && IsDigit(votes[i])
    requires exists i :: 0 <= i < |follows| && IsDigit(follows[i])
    requires exists i :: 0 <= i < |views| && IsDigit(views[i])
    ensures AllDigits(RemoveAll(votes, ',')) && AllDigits(RemoveAll(follows, ',')) && AllDigits(RemoveAll(views, ','))
    ensures ParseRow(row) == Ok(Some(Manga(row.href, Cleaned(row.title), row.rating,
      DigitsValue(RemoveAll(votes, ',')), DigitsValue(RemoveAll(views, ',')), DigitsValue(RemoveAll(follows, ',')))))
    ensures ParseRowIntended(row) == Ok(Some(Manga(row.href, CleanedIntended(row.title), row.rating,
      DigitsValue(RemoveAll(votes, ',')), DigitsValue(RemoveAll(views, ',')), DigitsValue(RemoveAll(follows, ',')))))
  {
    ParseVotesOfLabel(votes);
    ParseIntGrouped(f1, follows, f2);
    ParseIntGrouped(v1, views, v2);
  }
}
