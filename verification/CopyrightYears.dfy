/**
  The copyright line of `src/rewrite_header.cxx`: the loop that prints years
  as ranges, the decoding of such a line, and sorting in between.

  The regular expressions of the decoder are deterministic on one line: all
  that follows the last "copyright" and white space matches whatever the
  characters are.  They are written out as functions on strings.
 */
module CopyrightYears {

  // ----- Characters and years -----

  /** White space, as `\s` matches it. */
  predicate IsSpace(c: char) {
    9 <= c as int <= 13 || c == ' '
  }

  lemma WhiteSpace(c: char)
    ensures IsSpace(c) <==> c in {' ', '\t', '\n', '\U{0b}', '\U{0c}', '\r'}
  {
  }

  predicate IsDigit(c: char) {
    '0' <= c <= '9'
  }

  predicate IsYear(y: int) {
    1900 <= y <= 2099
  }

  function DigitChar(d: int): char
    requires 0 <= d <= 9
  {
    ('0' as int + d) as char
  }

  function DigitValue(c: char): int {
    c as int - '0' as int
  }

  /** A year as it is printed. */
  function YearText(y: int): string
    requires IsYear(y)
  {
    [DigitChar(y / 1000), DigitChar(y / 100 % 10), DigitChar(y / 10 % 10), DigitChar(y % 10)]
  }

  /** `(?:19|20)[\d][\d]` matches at the start. */
  predicate StartsYear(s: string) {
    && 4 <= |s|
    && ((s[0] == '1' && s[1] == '9') || (s[0] == '2' && s[1] == '0'))
    && IsDigit(s[2]) && IsDigit(s[3])
  }

  function YearAt(s: string): int
    requires StartsYear(s)
  {
    1000 * DigitValue(s[0]) + 100 * DigitValue(s[1]) + 10 * DigitValue(s[2]) + DigitValue(s[3])
  }

  /** `a` is what stands for the year `y`. */
  ghost predicate YearIs(a: string, y: int) {
    |a| == 4 && StartsYear(a) && YearAt(a) == y
  }

  lemma YearTextIs(y: int)
    requires IsYear(y)
    ensures YearIs(YearText(y), y)
  {
    DecimalDigits(y, y / 10, y / 100, y / 1000);
  }

  lemma DecimalDigits(y: int, tens: int, hundreds: int, thousands: int)
    requires IsYear(y) && tens == y / 10 && hundreds == y / 100 && thousands == y / 1000
    ensures y == 1000 * thousands + 100 * (hundreds % 10) + 10 * (tens % 10) + y % 10
    ensures (thousands == 1 && hundreds % 10 == 9) || (thousands == 2 && hundreds % 10 == 0)
  {
    assert tens == 10 * hundreds + tens % 10;
    assert hundreds == 10 * thousands + hundreds % 10;
  }

  // ----- Decoding -----

  /** How many characters at the start are white space. */
  function Spaces(s: string): (n: nat)
    ensures n <= |s|
  {
    if s != "" && IsSpace(s[0]) then 1 + Spaces(s[1..]) else 0
  }

  /** The length of a separator `\s*[,-]\s*|\s+` at the start, or 0 if there is none. */
  function SeparatorLength(s: string): (n: nat)
    ensures n <= |s|
  {
    var a := Spaces(s);
    if a < |s| && (s[a] == ',' || s[a] == '-') then a + 1 + Spaces(s[a + 1..]) else a
  }

  /** The length of the longest list of years at the start, each followed by a separator. */
  function SectionLength(s: string): (n: nat)
    ensures n <= |s|
  {
    if StartsYear(s) && SeparatorLength(s[4..]) > 0 then
      var k := 4 + SeparatorLength(s[4..]);
      k + SectionLength(s[k..])
    else 0
  }

  /** The length of `\s*-\s*` and a year at the start, or 0 if that does not match. */
  function RangeLength(s: string): (n: nat)
    ensures n <= |s| && (n > 0 ==> n >= 4 && StartsYear(s[n - 4..]))
  {
    var a := Spaces(s);
    if a < |s| && s[a] == '-' then
      var b := a + 1 + Spaces(s[a + 1..]);
      if StartsYear(s[b..]) then b + 4 else 0
    else 0
  }

  function Span(first: int, last: int): seq<int>
    decreases last - first
  {
    if first > last then [] else [first] + Span(first + 1, last)
  }

  /** All years and ranges of years in a text, searched from left to right. */
  function YearsIn(s: string): seq<int>
    decreases |s|
  {
    if s == "" then []
    else if StartsYear(s) then
      var n := RangeLength(s[4..]);
      if n > 0 then Span(YearAt(s), YearAt(s[4..][n - 4..])) + YearsIn(s[4..][n..])
      else [YearAt(s)] + YearsIn(s[4..])
    else YearsIn(s[1..])
  }

  /** "copyright" and at least one white space character. */
  predicate IsCopyrightAt(line: string, p: int) {
    && 0 <= p && p + 9 < |line|
    && (line[p] == 'C' || line[p] == 'c')
    && line[p + 1..p + 9] == "opyright"
    && IsSpace(line[p + 9])
  }

  /** The last place up to `p` where it occurs, or -1. */
  function LastCopyright(line: string, p: int): (q: int)
    requires -1 <= p
    ensures -1 <= q <= p
    ensures 0 <= q ==> IsCopyrightAt(line, q)
    ensures forall j | q < j <= p :: !IsCopyrightAt(line, j)
    decreases p
  {
    if p < 0 then -1
    else if IsCopyrightAt(line, p) then p
    else LastCopyright(line, p - 1)
  }

  /** `[Cc]opyright ` matches at `p`. */
  predicate IsLeadAt(text: string, p: int) {
    && IsCopyrightAt(text, p) && text[p + 9] == ' '
  }

  const DEFAULT_AUTHOR := "Carlo Wood"

  predicate IsOwnerAt(text: string, q: int) {
    0 <= q && q + |DEFAULT_AUTHOR| <= |text| && text[q..q + |DEFAULT_AUTHOR|] == DEFAULT_AUTHOR
  }

  predicate MentionsOwner(text: string) {
    exists q :: 0 <= q < |text| && IsOwnerAt(text, q)
  }

  /** `[Cc]opyright .*Carlo Wood` is found: only such a text is decoded as a copyright line. */
  predicate IsCopyrightLine(text: string) {
    exists p, q :: 0 <= p < |text| && p + 10 <= q < |text| && IsLeadAt(text, p) && IsOwnerAt(text, q)
  }

  /** What follows up to the first digit is skipped. */
  function SkipNonDigits(s: string): string {
    if s != "" && !IsDigit(s[0]) then SkipNonDigits(s[1..]) else s
  }

  /** Spaces and periods at the end are no part of the author's name. */
  function TrimRight(s: string): string {
    if s != "" && (s[|s| - 1] == ' ' || s[|s| - 1] == '.') then TrimRight(s[..|s| - 1]) else s
  }

  datatype Decoded = NoMatch | Match(years: seq<int>, author: string)

  /** What the decoder makes of a line from its years on, given the length of the section. */
  function DecodeBody(s: string, n: nat): Decoded
    requires n <= |s|
  {
    Match(YearsIn(s[..n]), TrimRight(s[n..]))
  }

  function Decode(line: string): Decoded {
    var p := LastCopyright(line, |line|);
    if p < 0 then NoMatch
    else
      var s := SkipNonDigits(line[p + 9..]);
      DecodeBody(s, SectionLength(s))
  }

  // ----- Printing -----

  ghost predicate StrictlyIncreasing(ys: seq<int>) {
    forall i, j | 0 <= i < j < |ys| :: ys[i] < ys[j]
  }

  ghost predicate AreYears(ys: seq<int>) {
    forall i | 0 <= i < |ys| :: IsYear(ys[i])
  }

  /** The first and the last year of a run, `gap` years apart. */
  function Joined(a: string, b: string, gap: int): string {
    if gap > 1 then a + " - " + b else if gap > 0 then a + ", " + b else a
  }

  /** One run of consecutive years. */
  function RunText(first: int, last: int): string
    requires IsYear(first) && IsYear(last)
  {
    Joined(YearText(first), YearText(last), last - first)
  }

  /** The run from `first` to `last` so far, and the years after it. */
  ghost function TextFrom(first: int, last: int, rest: seq<int>): string
    requires IsYear(first) && IsYear(last) && AreYears(rest)
    decreases |rest|
  {
    if rest == [] then RunText(first, last)
    else if rest[0] == last + 1 then TextFrom(first, rest[0], rest[1..])
    else RunText(first, last) + ", " + TextFrom(rest[0], rest[0], rest[1..])
  }

  ghost function YearsText(ys: seq<int>): string
    requires ys != [] && AreYears(ys)
  {
    TextFrom(ys[0], ys[0], ys[1..])
  }

  const LEAD := "@Copyright (C) "

  function Max(a: int, b: int): int {
    if a >= b then a else b
  }

  function CanonicalYears(ys: seq<int>, currentYear: int): seq<int> {
    if ys == [] then [currentYear] else Canonical(ys)
  }

  function CanonicalAuthor(author: string): string {
    if author == "" then DEFAULT_AUTHOR else author
  }

  // ----- The header -----

  class Header {
    var copyrightYears: seq<int>
    var author: string

    constructor ()
      ensures copyrightYears == [] && author == ""
    {
      copyrightYears, author := [], "";
    }

    /** The years of a line are appended to those that are already there; the author is replaced. */
    method DecodeCopyrightLine(line: string)
      modifies this
      ensures match Decode(line)
              case NoMatch => copyrightYears == old(copyrightYears) && author == old(author)
              case Match(ys, a) => copyrightYears == old(copyrightYears) + ys && author == a
    {
      var p := LastCopyright(line, |line|);
      if p >= 0 {
        var s := SkipNonDigits(line[p + 9..]);
        var n := SectionLength(s);
        ghost var d := DecodeBody(s, n);
        assert Decode(line) == d;
        var section, name := s[..n], s[n..];
        assert d == Match(YearsIn(section), TrimRight(name));
        AddYears(section);
        author := TrimRight(name);
      }
    }

    /** The loop over the years and ranges that the year pattern finds. */
    method AddYears(section: string)
      modifies this`copyrightYears
      ensures copyrightYears == old(copyrightYears) + YearsIn(section)
    {
      var rest := section;
      while rest != ""
        invariant copyrightYears + YearsIn(rest) == old(copyrightYears) + YearsIn(section)
        decreases |rest|
      {
        if StartsYear(rest) {
          var rangeBegin := YearAt(rest);
          var k := RangeLength(rest[4..]);
          var rangeEnd := if k > 0 then YearAt(rest[4..][k - 4..]) else rangeBegin;
          YearsInStep(rest);
          AddRange(rangeBegin, rangeEnd);
          rest := rest[4..][k..];
        } else {
          rest := rest[1..];
        }
      }
    }

    method AddRange(first: int, last: int)
      modifies this`copyrightYears
      ensures copyrightYears == old(copyrightYears) + Span(first, last)
    {
      var year := first;
      while year <= last
        invariant copyrightYears + Span(year, last) == old(copyrightYears) + Span(first, last)
        decreases last - year
      {
        copyrightYears := copyrightYears + [year];
        year := year + 1;
      }
    }

    /** The years and the author of `canonicalize`; the clock says which year it is. */
    method Canonicalize(currentYear: int)
      modifies this
      ensures copyrightYears != [] && StrictlyIncreasing(copyrightYears)
      ensures forall y :: y in copyrightYears <==>
                            y in (if old(copyrightYears) == [] then [currentYear] else old(copyrightYears))
      ensures copyrightYears == CanonicalYears(old(copyrightYears), currentYear)
      ensures author == CanonicalAuthor(old(author)) != ""
    {
      CanonicalIsSorted(copyrightYears);
      if copyrightYears == [] {
        copyrightYears := [currentYear];
      } else {
        assert copyrightYears[0] in copyrightYears;
        copyrightYears := Canonical(copyrightYears);
      }
      if author == "" {
        author := DEFAULT_AUTHOR;
      }
    }

    /** The loop of `print_on` over the years, and the author after it. */
    method PrintCopyright() returns (os: string)
      requires copyrightYears != [] && AreYears(copyrightYears) && StrictlyIncreasing(copyrightYears)
      ensures os == LEAD + YearsText(copyrightYears) + "  " + author + "."
    {
      os := PrintYears(copyrightYears);
      os := os + "  " + author + ".";
    }
  }

  method PrintYears(ys: seq<int>) returns (os: string)
    requires ys != [] && AreYears(ys) && StrictlyIncreasing(ys)
    ensures os == LEAD + YearsText(ys)
  {
    os := "";
    var separator := LEAD;
    var firstYear, lastYear := 0, 0;
    var finalYear := ys[|ys| - 1];
    for i := 0 to |ys|
      invariant i == 0 ==> os == "" && separator == LEAD && firstYear == 0 == lastYear
      invariant 0 < i < |ys| ==>
                  && IsYear(firstYear) && IsYear(lastYear) && lastYear == ys[i - 1] && firstYear <= lastYear
                  && AreYears(ys[i..])
                  && os + separator + TextFrom(firstYear, lastYear, ys[i..]) == LEAD + YearsText(ys)
      invariant i == |ys| ==> os == LEAD + YearsText(ys)
    {
      var year := ys[i];
      assert year != finalYear <==> i < |ys| - 1;
      if 0 < i {
        PrintStep(ys, i, firstYear, lastYear, os + separator);
      } else {
        assert ys[0..][1..] == ys[1..];
      }
      if year == lastYear + 1 {
        lastYear := year;
        if year != finalYear {
          continue;
        }
      }
      if firstYear != 0 || year == finalYear {
        if firstYear == 0 {
          firstYear := year;
        }
        os := PrintRun(os, separator, firstYear, lastYear);
        separator := ", ";
        if year == finalYear && year > Max(firstYear, lastYear) {
          os := os + separator + YearText(year);
        }
      }
      firstYear, lastYear := year, year;
    }
  }

  /** One run, with its separators; `last` is 0 if only the first year is known. */
  method PrintRun(before: string, separator: string, first: int, last: int) returns (os: string)
    requires IsYear(first) && (last == 0 || (IsYear(last) && first <= last))
    ensures os == before + separator + RunText(first, if last == 0 then first else last)
  {
    os := before + separator + YearText(first);
    var inner := if last > first + 1 then " - " else ", ";
    if last > first {
      os := os + inner + YearText(last);
    }
  }

  /** What is printed next after `done`, one year further on. */
  lemma PrintStep(ys: seq<int>, i: nat, first: int, last: int, done: string)
    requires 0 < i < |ys| && AreYears(ys) && StrictlyIncreasing(ys)
    requires IsYear(first) && IsYear(last) && last == ys[i - 1]
    ensures IsYear(ys[i]) && last < ys[i] && AreYears(ys[i..]) && AreYears(ys[i + 1..])
    ensures done + TextFrom(first, last, ys[i..])
         == if ys[i] == last + 1 then done + TextFrom(first, ys[i], ys[i + 1..])
            else done + RunText(first, last) + ", " + TextFrom(ys[i], ys[i], ys[i + 1..])
    ensures i == |ys| - 1 ==> ys[i + 1..] == []
  {
    assert ys[i..][1..] == ys[i + 1..];
    if ys[i] != last + 1 {
      var run, rest := RunText(first, last), TextFrom(ys[i], ys[i], ys[i + 1..]);
      assert done + (run + ", " + rest) == done + run + ", " + rest;
    }
  }

  lemma YearsInStep(s: string)
    requires StartsYear(s)
    ensures var k := RangeLength(s[4..]);
            var first := YearAt(s);
            YearsIn(s) == Span(first, if k > 0 then YearAt(s[4..][k - 4..]) else first) + YearsIn(s[4..][k..])
  {
    var first := YearAt(s);
    assert Span(first, first) == [first] + Span(first + 1, first) == [first];
    assert s[4..][0..] == s[4..];
  }

  // ----- Sort and unique -----

  /** `x` put into a strictly increasing list, unless it is there already. */
  function Insert(x: int, ys: seq<int>): seq<int> {
    if ys == [] || x < ys[0] then [x] + ys
    else if x == ys[0] then ys
    else [ys[0]] + Insert(x, ys[1..])
  }

  function Canonical(xs: seq<int>): seq<int> {
    if xs == [] then [] else Insert(xs[0], Canonical(xs[1..]))
  }

  lemma {:induction false} InsertKeeps(x: int, ys: seq<int>)
    requires StrictlyIncreasing(ys)
    ensures StrictlyIncreasing(Insert(x, ys))
    ensures forall y :: y in Insert(x, ys) <==> y == x || y in ys
  {
    if ys != [] && x > ys[0] {
      InsertKeeps(x, ys[1..]);
      var tail := Insert(x, ys[1..]);
      assert forall y :: y in ys <==> y == ys[0] || y in ys[1..];
      forall i | 0 <= i < |tail| ensures ys[0] < tail[i] {
        assert tail[i] in tail;
      }
      IncreasingCons(ys[0], tail);
    }
  }

  lemma IncreasingCons(x: int, ys: seq<int>)
    requires StrictlyIncreasing(ys) && forall i | 0 <= i < |ys| :: x < ys[i]
    ensures StrictlyIncreasing([x] + ys)
    ensures forall y :: y in [x] + ys <==> y == x || y in ys
  {
  }

  /** The result is strictly increasing and has the same elements. */
  lemma {:induction false} CanonicalIsSorted(xs: seq<int>)
    ensures StrictlyIncreasing(Canonical(xs))
    ensures forall y :: y in Canonical(xs) <==> y in xs
  {
    if xs != [] {
      CanonicalIsSorted(xs[1..]);
      InsertKeeps(xs[0], Canonical(xs[1..]));
      assert forall y :: y in xs <==> y == xs[0] || y in xs[1..];
    }
  }

  lemma FirstIn(a: seq<int>, b: seq<int>)
    requires forall y :: y in a ==> y in b
    ensures a != [] ==> a[0] in b && b != []
  {
    if a != [] {
      var y := a[0];
      assert y in a;
    }
  }

  /** There is only one such list. */
  lemma {:induction false} SortedIsUnique(a: seq<int>, b: seq<int>)
    requires StrictlyIncreasing(a) && StrictlyIncreasing(b)
    requires forall y :: y in a <==> y in b
    ensures a == b
  {
    FirstIn(a, b);
    FirstIn(b, a);
    if a != [] && b != [] {
      assert a[0] == b[0];
      forall y ensures y in a[1..] <==> y in b[1..] {
        assert y in a <==> y == a[0] || y in a[1..];
        assert y in b <==> y == b[0] || y in b[1..];
        assert a[0] !in a[1..] && b[0] !in b[1..];
      }
      SortedIsUnique(a[1..], b[1..]);
    }
  }

  lemma CanonicalOfSorted(ys: seq<int>)
    requires StrictlyIncreasing(ys)
    ensures Canonical(ys) == ys
  {
    CanonicalIsSorted(ys);
    SortedIsUnique(Canonical(ys), ys);
  }

  // ----- Reading back what was printed: the years -----

  /** The separator inside a range. */
  lemma HyphenSeparator(s: string, t: string)
    requires t != "" && !IsSpace(t[0])
    requires |s| == |t| + 3 && s[0] == ' ' && s[1] == '-' && s[2] == ' ' && s[3..] == t
    ensures SeparatorLength(s) == 3 && (StartsYear(t) ==> RangeLength(s) == 7)
  {
    assert Spaces(t) == 0;
    assert s[2..][1..] == t;
    assert Spaces(s[2..]) == 1;
    assert Spaces(s[1..]) == 0;
    assert Spaces(s) == 1;
  }

  /** The separator between runs. */
  lemma CommaSeparator(s: string, t: string)
    requires |s| == |t| + 2 && s[0] == ',' && s[1] == ' ' && s[2..] == t
    ensures t != "" && !IsSpace(t[0]) ==> SeparatorLength(s) == 2
    ensures RangeLength(s) == 0 && YearsIn(s) == YearsIn(t)
  {
    assert s[1..][1..] == t;
    assert Spaces(s) == 0;
    assert YearsIn(s) == YearsIn(s[1..]);
    if t != "" && !IsSpace(t[0]) {
      assert Spaces(t) == 0;
      assert Spaces(s[1..]) == 1;
    }
  }

  lemma YearFirst(a: string, y: int, t: string)
    requires YearIs(a, y)
    ensures StartsYear(a + t) && YearAt(a + t) == y && (a + t)[4..] == t && !IsSpace((a + t)[0])
  {
  }

  /** A year that no hyphen follows is read as itself. */
  lemma ReadOne(a: string, y: int, t: string)
    requires YearIs(a, y) && RangeLength(t) == 0
    ensures YearsIn(a + t) == [y] + YearsIn(t)
  {
    YearFirst(a, y, t);
  }

  lemma ReadTwo(a: string, y: int, b: string, z: int, t: string)
    requires YearIs(a, y) && YearIs(b, z) && RangeLength(t) == 0
    ensures YearsIn(a + ", " + b + t) == [y, z] + YearsIn(t)
  {
    var u := b + t;
    CommaForm(a, u, b, t);
    ReadPastComma(a, y, u);
    ReadOne(b, z, t);
    PairFirst(y, z, YearsIn(t));
  }

  lemma PairFirst(y: int, z: int, ys: seq<int>)
    ensures [y] + ([z] + ys) == [y, z] + ys
  {
  }

  lemma ReadPastComma(a: string, y: int, u: string)
    requires YearIs(a, y)
    ensures YearsIn(a + (", " + u)) == [y] + YearsIn(u)
  {
    CommaSeparator(", " + u, u);
    ReadOne(a, y, ", " + u);
  }

  lemma CommaForm(a: string, u: string, b: string, t: string)
    requires u == b + t
    ensures a + ", " + b + t == a + (", " + u)
  {
  }

  /** Two years with a hyphen in between are read as the range. */
  lemma ReadRange(a: string, y: int, b: string, z: int, t: string)
    requires YearIs(a, y) && YearIs(b, z)
    ensures YearsIn(a + " - " + b + t) == Span(y, z) + YearsIn(t)
  {
    var u := b + t;
    var s := " - " + u;
    assert a + " - " + b + t == a + s;
    YearFirst(a, y, s);
    YearFirst(b, z, t);
    HyphenSeparator(s, u);
    assert s[7 - 4..] == u && s[7..] == u[4..];
  }

  lemma {:induction false} SpanSnoc(first: int, last: int)
    requires first <= last
    ensures Span(first, last) + [last + 1] == Span(first, last + 1)
    decreases last - first
  {
    if first < last {
      SpanSnoc(first + 1, last);
    } else {
      assert Span(first + 1, last) == [];
      assert Span(last + 1, last + 1) == [last + 1] + Span(last + 2, last + 1);
    }
  }

  lemma ShortSpans(y: int)
    ensures Span(y, y) == [y] && Span(y, y + 1) == [y, y + 1]
  {
    assert Span(y + 1, y) == [] && Span(y + 2, y + 1) == [];
    assert Span(y + 1, y + 1) == [y + 1] + Span(y + 2, y + 1);
  }

  lemma ReadJoined(a: string, y: int, b: string, z: int, t: string)
    requires YearIs(a, y) && YearIs(b, z) && y <= z && RangeLength(t) == 0
    ensures YearsIn(Joined(a, b, z - y) + t) == Span(y, z) + YearsIn(t)
  {
    if z > y + 1 {
      ReadRange(a, y, b, z, t);
    } else if z > y {
      calc {
        YearsIn(a + ", " + b + t);
      ==  { ReadTwo(a, y, b, z, t); }
        [y, z] + YearsIn(t);
      ==  { ShortSpans(y); }
        Span(y, z) + YearsIn(t);
      }
    } else {
      calc {
        YearsIn(a + t);
      ==  { ReadOne(a, y, t); }
        [y] + YearsIn(t);
      ==  { ShortSpans(y); }
        Span(y, z) + YearsIn(t);
      }
    }
  }

  lemma ReadRun(first: int, last: int, t: string)
    requires IsYear(first) && IsYear(last) && first <= last && RangeLength(t) == 0
    ensures YearsIn(RunText(first, last) + t) == Span(first, last) + YearsIn(t)
  {
    YearTextIs(first);
    YearTextIs(last);
    ReadJoined(YearText(first), first, YearText(last), last, t);
  }

  lemma ReadNewRun(first: int, last: int, u: string)
    requires IsYear(first) && IsYear(last) && first <= last
    ensures YearsIn(RunText(first, last) + (", " + u)) == Span(first, last) + YearsIn(u)
  {
    CommaSeparator(", " + u, u);
    ReadRun(first, last, ", " + u);
  }

  lemma LongerSpan(first: int, last: int, rest: seq<int>)
    requires first <= last && rest != [] && rest[0] == last + 1
    ensures Span(first, rest[0]) + rest[1..] == Span(first, last) + rest
  {
    SpanSnoc(first, last);
    assert [rest[0]] + rest[1..] == rest;
  }

  /** The years of a run and of everything printed after it are read back in order. */
  lemma {:induction false} ReadFrom(first: int, last: int, rest: seq<int>, t: string)
    requires IsYear(first) && IsYear(last) && first <= last && AreYears(rest)
    requires StrictlyIncreasing([last] + rest) && RangeLength(t) == 0
    ensures YearsIn(TextFrom(first, last, rest) + t) == Span(first, last) + rest + YearsIn(t)
    decreases |rest|
  {
    if rest == [] {
      ReadRun(first, last, t);
    } else {
      SortedTail(last, rest);
      if rest[0] == last + 1 {
        LongerSpan(first, last, rest);
        ReadFrom(first, rest[0], rest[1..], t);
      } else {
        ReadFrom(rest[0], rest[0], rest[1..], t);
        ReadAfterRun(first, last, rest, t);
      }
    }
  }

  lemma ReadAfter(run: string, span: seq<int>, text: string, next: int, more: seq<int>, t: string)
    requires YearsIn(run + (", " + (text + t))) == span + YearsIn(text + t)
    requires YearsIn(text + t) == Span(next, next) + more + YearsIn(t)
    ensures YearsIn(run + ", " + text + t) == span + ([next] + more) + YearsIn(t)
  {
    calc {
      YearsIn(run + ", " + text + t);
    ==  { Regroup(run, text, t); }
      span + YearsIn(text + t);
    ==
      span + (Span(next, next) + more + YearsIn(t));
    ==  { ShortSpans(next); }
      span + ([next] + more) + YearsIn(t);
    }
  }

  lemma ReadAfterRun(first: int, last: int, rest: seq<int>, t: string)
    requires IsYear(first) && IsYear(last) && first <= last && rest != [] && AreYears(rest)
    requires var text := TextFrom(rest[0], rest[0], rest[1..]);
             YearsIn(text + t) == Span(rest[0], rest[0]) + rest[1..] + YearsIn(t)
    ensures var text := TextFrom(rest[0], rest[0], rest[1..]);
            YearsIn(RunText(first, last) + ", " + text + t) == Span(first, last) + rest + YearsIn(t)
  {
    var text := TextFrom(rest[0], rest[0], rest[1..]);
    ReadNewRun(first, last, text + t);
    ReadAfter(RunText(first, last), Span(first, last), text, rest[0], rest[1..], t);
    assert [rest[0]] + rest[1..] == rest;
  }

  // ----- When years are printed as a range -----

  /** Three years in a row. */
  ghost predicate HasThreeInARow(ys: seq<int>) {
    exists j :: 0 <= j < |ys| - 2 && ys[j + 2] == ys[j] + 2
  }

  lemma {:induction false} SpanAt(first: int, last: int)
    requires first <= last + 1
    ensures |Span(first, last)| == last + 1 - first
    ensures forall j | 0 <= j < last + 1 - first :: Span(first, last)[j] == first + j
    decreases last + 1 - first
  {
    if first <= last {
      SpanAt(first + 1, last);
    }
  }

  lemma HyphenInRun(first: int, last: int)
    requires IsYear(first) && IsYear(last)
    ensures '-' in RunText(first, last) <==> last - first >= 2
  {
    if last - first >= 2 {
      assert RunText(first, last)[5] == '-';
    }
  }

  /** A run that something other than the next year follows. */
  lemma ThreeInRun(first: int, last: int, rest: seq<int>)
    requires first <= last && StrictlyIncreasing([last] + rest) && (rest != [] ==> rest[0] != last + 1)
    ensures HasThreeInARow(Span(first, last) + rest) <==> last - first >= 2 || HasThreeInARow(rest)
  {
    var ys, n := Span(first, last) + rest, last + 1 - first;
    SpanAt(first, last);
    if last - first >= 2 {
      assert ys[0 + 2] == ys[0] + 2;
    }
    if j :| 0 <= j < |rest| - 2 && rest[j + 2] == rest[j] + 2 {
      assert ys[n + j + 2] == ys[n + j] + 2;
    }
    if j :| 0 <= j < |ys| - 2 && ys[j + 2] == ys[j] + 2 && last - first < 2 {
      NoneAcross(first, last, rest, j);
      assert rest[j - n + 2] == rest[j - n] + 2;
    }
  }

  lemma NoneAcross(first: int, last: int, rest: seq<int>, j: nat)
    requires first <= last < first + 2
    requires StrictlyIncreasing([last] + rest) && (rest != [] ==> rest[0] != last + 1)
    requires var ys := Span(first, last) + rest; j < |ys| - 2 && ys[j + 2] == ys[j] + 2
    ensures j > last - first
  {
    var tail := [last] + rest;
    SpanAt(first, last);
    assert tail[0] < tail[1] == rest[0];
    assert |rest| > 1 ==> tail[1] < tail[2] == rest[1];
  }

  lemma {:induction false} HyphenFrom(first: int, last: int, rest: seq<int>)
    requires IsYear(first) && IsYear(last) && first <= last && AreYears(rest) && StrictlyIncreasing([last] + rest)
    ensures '-' in TextFrom(first, last, rest) <==> HasThreeInARow(Span(first, last) + rest)
    decreases |rest|
  {
    HyphenInRun(first, last);
    if rest == [] {
      ThreeInRun(first, last, rest);
    } else {
      SortedTail(last, rest);
      if rest[0] == last + 1 {
        LongerSpan(first, last, rest);
        HyphenFrom(first, rest[0], rest[1..]);
      } else {
        HyphenFrom(rest[0], rest[0], rest[1..]);
        ShortSpans(rest[0]);
        assert [rest[0]] + rest[1..] == rest;
        ThreeInRun(first, last, rest);
      }
    }
  }

  /** A range is printed if and only if there are three years in a row. */
  lemma HyphenMeansRange(ys: seq<int>)
    requires ys != [] && AreYears(ys) && StrictlyIncreasing(ys)
    ensures '-' in YearsText(ys) <==> HasThreeInARow(ys)
  {
    assert [ys[0]] + ys[1..] == ys;
    HyphenFrom(ys[0], ys[0], ys[1..]);
    ShortSpans(ys[0]);
  }

  // ----- Reading back what was printed: the section and the author -----

  /** A year, a separator and what follows it. */
  lemma SectionStep(a: string, y: int, s: string, k: nat)
    requires YearIs(a, y) && k > 0 && SeparatorLength(s) == k
    ensures SectionLength(a + s) == 4 + k + SectionLength(s[k..])
  {
    YearFirst(a, y, s);
    assert (a + s)[4 + k..] == s[k..];
  }

  lemma SectionComma(a: string, y: int, b: string, z: int, t: string)
    requires YearIs(a, y) && YearIs(b, z)
    ensures SectionLength(a + ", " + b + t) == 6 + SectionLength(b + t)
  {
    var u := b + t;
    CommaForm(a, u, b, t);
    YearFirst(b, z, t);
    SectionPastComma(a, y, u);
  }

  lemma SectionHyphen(a: string, y: int, b: string, z: int, t: string)
    requires YearIs(a, y) && YearIs(b, z)
    ensures SectionLength(a + " - " + b + t) == 7 + SectionLength(b + t)
  {
    var u := b + t;
    HyphenForm(a, u, b, t);
    YearFirst(b, z, t);
    SectionPastHyphen(a, y, u);
  }

  lemma HyphenForm(a: string, u: string, b: string, t: string)
    requires u == b + t
    ensures a + " - " + b + t == a + (" - " + u)
  {
  }

  lemma SectionPastHyphen(a: string, y: int, u: string)
    requires YearIs(a, y) && u != "" && !IsSpace(u[0])
    ensures SectionLength(a + (" - " + u)) == 7 + SectionLength(u)
  {
    HyphenSeparator(" - " + u, u);
    SectionStep(a, y, " - " + u, 3);
  }

  lemma {:induction false} TextStartsWithDigit(first: int, last: int, rest: seq<int>)
    requires IsYear(first) && IsYear(last) && AreYears(rest)
    ensures |TextFrom(first, last, rest)| >= 4 && IsDigit(TextFrom(first, last, rest)[0])
    decreases |rest|
  {
    if rest != [] && rest[0] == last + 1 {
      TextStartsWithDigit(first, rest[0], rest[1..]);
    }
  }

  lemma SectionJoined(a: string, y: int, b: string, z: int, t: string)
    requires YearIs(a, y) && YearIs(b, z) && (y == z ==> a == b) && y <= z
    ensures SectionLength(Joined(a, b, z - y) + t) == |Joined(a, b, z - y)| - 4 + SectionLength(b + t)
  {
    if z > y + 1 {
      SectionHyphen(a, y, b, z, t);
    } else if z > y {
      SectionComma(a, y, b, z, t);
    }
  }

  /** All but the last year of a run, each with its separator, and then the last year. */
  lemma SectionRun(first: int, last: int, t: string)
    requires IsYear(first) && IsYear(last) && first <= last
    ensures SectionLength(RunText(first, last) + t) == |RunText(first, last)| - 4 + SectionLength(YearText(last) + t)
  {
    YearTextIs(first);
    YearTextIs(last);
    SectionJoined(YearText(first), first, YearText(last), last, t);
  }

  lemma SectionPastComma(a: string, y: int, u: string)
    requires YearIs(a, y) && u != "" && !IsSpace(u[0])
    ensures SectionLength(a + (", " + u)) == 6 + SectionLength(u)
  {
    CommaSeparator(", " + u, u);
    SectionStep(a, y, ", " + u, 2);
  }

  lemma SectionNewRun(first: int, last: int, u: string)
    requires IsYear(first) && IsYear(last) && first <= last && u != "" && !IsSpace(u[0])
    ensures SectionLength(RunText(first, last) + (", " + u)) == |RunText(first, last)| + 2 + SectionLength(u)
  {
    calc {
      SectionLength(RunText(first, last) + (", " + u));
    ==  { SectionRun(first, last, ", " + u); }
      |RunText(first, last)| - 4 + SectionLength(YearText(last) + (", " + u));
    ==  { YearTextIs(last); SectionPastComma(YearText(last), last, u); }
      |RunText(first, last)| + 2 + SectionLength(u);
    }
  }

  lemma SortedTail(last: int, rest: seq<int>)
    requires rest != [] && StrictlyIncreasing([last] + rest)
    ensures last < rest[0] && StrictlyIncreasing([rest[0]] + rest[1..])
  {
    assert ([last] + rest)[0] < ([last] + rest)[1];
    assert [rest[0]] + rest[1..] == ([last] + rest)[1..];
  }

  lemma {:induction false} SectionFrom(first: int, last: int, rest: seq<int>, t: string)
    requires IsYear(first) && IsYear(last) && first <= last && AreYears(rest)
    requires StrictlyIncreasing([last] + rest)
    requires SeparatorLength(t) > 0
    ensures SectionLength(TextFrom(first, last, rest) + t)
         == |TextFrom(first, last, rest)| + SeparatorLength(t) + SectionLength(t[SeparatorLength(t)..])
    decreases |rest|
  {
    if rest == [] {
      YearTextIs(last);
      SectionStep(YearText(last), last, t, SeparatorLength(t));
      SectionRun(first, last, t);
    } else {
      var next, more := rest[0], rest[1..];
      SortedTail(last, rest);
      if next == last + 1 {
        SectionFrom(first, next, more, t);
      } else {
        SectionFrom(next, next, more, t);
        SectionAfterRun(first, last, rest, t, SeparatorLength(t) + SectionLength(t[SeparatorLength(t)..]));
      }
    }
  }

  lemma Regroup(run: string, text: string, t: string)
    ensures run + ", " + text + t == run + (", " + (text + t))
  {
  }

  lemma SectionAfterRun(first: int, last: int, rest: seq<int>, t: string, n: nat)
    requires IsYear(first) && IsYear(last) && first <= last && rest != [] && AreYears(rest)
    requires var text := TextFrom(rest[0], rest[0], rest[1..]);
             SectionLength(text + t) == |text| + n
    ensures var run, text := RunText(first, last), TextFrom(rest[0], rest[0], rest[1..]);
            SectionLength(run + ", " + text + t) == |run + ", " + text| + n
  {
    var run, text := RunText(first, last), TextFrom(rest[0], rest[0], rest[1..]);
    calc {
      SectionLength(run + ", " + text + t);
    ==  { Regroup(run, text, t); }
      SectionLength(run + (", " + (text + t)));
    ==  { TextStartsWithDigit(rest[0], rest[0], rest[1..]); SectionNewRun(first, last, text + t); }
      |run| + 2 + SectionLength(text + t);
    }
  }

  predicate IsSeparator(c: char) {
    IsSpace(c) || c == ',' || c == '-'
  }

  /** A text that starts with a year and a separator. */
  predicate StartsWithYears(s: string) {
    StartsYear(s) && 4 < |s| && IsSeparator(s[4])
  }

  ghost predicate NoCopyright(s: string) {
    forall p {:trigger IsCopyrightAt(s, p)} | 0 <= p < |s| :: !IsCopyrightAt(s, p)
  }

  /**
    A name that does not continue the list of years in front of it, has no
    characters to lose at its end, and does not mention another copyright.
   */
  ghost predicate IsAuthor(author: string) {
    && author != "" && !IsSeparator(author[0]) && !StartsWithYears(author)
    && author[|author| - 1] != ' ' && author[|author| - 1] != '.'
    && NoCopyright(author)
  }

  lemma SeparatorStarts(s: string)
    ensures SeparatorLength(s) > 0 <==> s != "" && IsSeparator(s[0])
  {
  }

  lemma SectionStarts(s: string)
    ensures SectionLength(s) > 0 <==> StartsWithYears(s)
  {
    if StartsYear(s) {
      SeparatorStarts(s[4..]);
    }
  }

  /** How much of what follows the two blanks is taken for years and separators. */
  function Taken(s: string): (n: nat)
    ensures n <= |s|
  {
    var k := SeparatorLength(s);
    k + SectionLength(s[k..])
  }

  lemma TakesNothing(author: string)
    ensures author == "" ==> Taken(author + ".") == 0
    ensures author != "" ==> (Taken(author + ".") == 0 <==> !IsSeparator(author[0]) && !StartsWithYears(author))
  {
    var s := author + ".";
    SeparatorStarts(s);
    if SeparatorLength(s) == 0 {
      assert s[0..] == s;
      SectionStarts(s);
      assert StartsWithYears(s) <==> StartsWithYears(author);
    }
  }

  lemma SeparatorAfterBlanks(s: string, tail: string)
    requires tail == "  " + s
    ensures SeparatorLength(tail) == 2 + SeparatorLength(s)
    ensures tail[SeparatorLength(tail)..] == s[SeparatorLength(s)..]
  {
    assert tail[1..][1..] == s;
    assert Spaces(tail[1..]) == 1 + Spaces(s);
    var a := Spaces(s);
    assert Spaces(tail) == a + 2;
    if a < |s| {
      assert tail[a + 2] == s[a] && tail[a + 2 + 1..] == s[a + 1..];
    }
  }

  lemma BlanksAreNoYears()
    ensures RangeLength("  ") == 0 && YearsIn("  ") == []
  {
    assert "  "[1..] == " " && " "[1..] == "";
    assert Spaces(" ") == 1 && Spaces("  ") == 2;
    assert YearsIn(" ") == [];
  }

  lemma SplitBody(text: string, author: string, m: nat)
    requires m <= |author| + 1
    ensures var s := text + "  " + author + ".";
            && s == text + ("  " + (author + "."))
            && s[|text| + 2 + m..] == (author + ".")[m..]
            && (m == 0 ==> s[..|text| + 2 + m] == text + "  ")
  {
    assert (text + ("  " + (author + ".")))[|text| + 2..] == author + ".";
  }

  /** The section takes the years, the two spaces and whatever of the author looks like more years. */
  lemma SectionOfBody(ys: seq<int>, author: string)
    requires ys != [] && AreYears(ys) && StrictlyIncreasing(ys)
    ensures SectionLength(YearsText(ys) + "  " + author + ".") == |YearsText(ys)| + 2 + Taken(author + ".")
  {
    var text, tail := YearsText(ys), "  " + (author + ".");
    assert [ys[0]] + ys[1..] == ys;
    calc {
      SectionLength(text + "  " + author + ".");
    ==  { SplitBody(text, author, 0); }
      SectionLength(text + tail);
    ==  { SeparatorAfterBlanks(author + ".", tail); SectionFrom(ys[0], ys[0], ys[1..], tail); }
      |text| + 2 + Taken(author + ".");
    }
  }

  lemma YearsBeforeBlanks(ys: seq<int>)
    requires ys != [] && AreYears(ys) && StrictlyIncreasing(ys)
    ensures YearsIn(YearsText(ys) + "  ") == ys
  {
    assert [ys[0]] + ys[1..] == ys;
    calc {
      YearsIn(YearsText(ys) + "  ");
    ==  { BlanksAreNoYears(); ReadFrom(ys[0], ys[0], ys[1..], "  "); }
      Span(ys[0], ys[0]) + ys[1..] + YearsIn("  ");
    ==  { ShortSpans(ys[0]); BlanksAreNoYears(); }
      ys;
    }
  }

  lemma DecodeBodyParts(text: string, author: string, m: nat, n: nat)
    requires m <= |author| + 1 && n == |text| + 2 + m
    ensures var d := DecodeBody(text + "  " + author + ".", n);
            && d.author == TrimRight((author + ".")[m..])
            && (m == 0 ==> d.years == YearsIn(text + "  "))
  {
    SplitBody(text, author, m);
  }

  /** What is left after trimming, and that nothing more can be trimmed. */
  lemma {:induction false} TrimIsPrefix(s: string)
    ensures var t := TrimRight(s);
            && |t| <= |s| && t == s[..|t|]
            && (t != "" ==> t[|t| - 1] != ' ' && t[|t| - 1] != '.')
            && (s != "" && (s[|s| - 1] == ' ' || s[|s| - 1] == '.') ==> |t| < |s|)
  {
    if s != "" && (s[|s| - 1] == ' ' || s[|s| - 1] == '.') {
      TrimIsPrefix(s[..|s| - 1]);
    }
  }

  /** Trimming what is left of a name and its period gives the name only if nothing was taken. */
  lemma TrimmedName(author: string, m: nat)
    requires m <= |author| + 1 && (author == "" ==> m == 0)
    ensures TrimRight((author + ".")[m..]) == author
            <==> author == "" || (m == 0 && author[|author| - 1] != ' ' && author[|author| - 1] != '.')
  {
    var s := (author + ".")[m..];
    TrimIsPrefix(s);
    if m <= |author| {
      assert s[|s| - 1] == '.';
      assert s[..|s| - 1] == author[m..];
      TrimIsPrefix(author[m..]);
      assert m == 0 ==> author[m..] == author;
    }
  }

  /** Years and author after the lead of the line. */
  lemma ReadBody(ys: seq<int>, author: string, n: nat)
    requires ys != [] && AreYears(ys) && StrictlyIncreasing(ys) && NoCopyright(author)
    requires n == |YearsText(ys)| + 2 + Taken(author + ".") && n <= |YearsText(ys) + "  " + author + "."|
    ensures var d := DecodeBody(YearsText(ys) + "  " + author + ".", n);
            && (author == "" || IsAuthor(author) ==> d == Match(ys, author))
            && (d.author == author ==> author == "" || IsAuthor(author))
  {
    TakesNothing(author);
    var m := Taken(author + ".");
    DecodeBodyParts(YearsText(ys), author, m, n);
    TrimmedName(author, m);
    YearsBeforeBlanks(ys);
  }

  // ----- Reading back what was printed: the line -----

  /** No letters in the years. */
  lemma {:induction false} NoLetters(first: int, last: int, rest: seq<int>)
    requires IsYear(first) && IsYear(last) && AreYears(rest)
    ensures forall c | c in TextFrom(first, last, rest) :: c != 'C' && c != 'c'
    decreases |rest|
  {
    if rest != [] {
      NoLetters(if rest[0] == last + 1 then first else rest[0], rest[0], rest[1..]);
    }
  }

  lemma LastIs(line: string, p: int, q: int)
    requires -1 <= p && 0 <= q <= p && IsCopyrightAt(line, q)
    requires forall j | q < j <= p :: !IsCopyrightAt(line, j)
    ensures LastCopyright(line, p) == q
  {
  }

  lemma SliceWithin(line: string, k: nat, s: string, i: nat, j: nat)
    requires k + |s| <= |line| && line[k..k + |s|] == s && i <= j <= |s|
    ensures s[i..j] == line[k + i..k + j]
  {
    var here := line[k + i..k + j];
    forall m | 0 <= m < j - i ensures here[m] == s[i..j][m] {
      assert line[k..k + |s|][i + m] == line[k + i + m];
    }
  }

  /** A copyright in a part of a line is one in the line. */
  lemma CopyrightWithin(line: string, k: nat, s: string, p: nat)
    requires k + |s| <= |line| && line[k..k + |s|] == s && p < |s| && IsCopyrightAt(s, p)
    ensures IsCopyrightAt(line, k + p)
  {
    SliceWithin(line, k, s, p + 1, p + 9);
    assert line[k..k + |s|][p] == line[k + p] && line[k..k + |s|][p + 9] == line[k + p + 9];
  }

  lemma NoLaterCopyright(pre: string, text: string, author: string, j: int)
    requires forall c | c in text :: c != 'C' && c != 'c'
    requires NoCopyright(author)
    requires j > |pre| + 1
    ensures !IsCopyrightAt(pre + LEAD + (text + "  " + author + "."), j)
  {
    var line := pre + LEAD + (text + "  " + author + ".");
    var k := |pre| + |LEAD| + |text| + 2;
    if k <= j {
      assert line[k..] == author + ".";
      if IsCopyrightAt(line, j) {
        assert line[j + 1..j + 9] == author[j - k + 1..j - k + 9];
        assert IsCopyrightAt(author, j - k);
      }
    } else if |pre| + |LEAD| <= j {
      var m := j - |pre| - |LEAD|;
      assert line[j] == (text + "  ")[m];
      assert m < |text| ==> text[m] in text;
    } else {
      assert line[j] == LEAD[j - |pre|];
      assert j == |pre| + 12 ==> line[j + 1] == LEAD[13] == ')';
      CopyrightLetters(line, j);
    }
  }

  lemma CopyrightLetters(line: string, j: int)
    ensures IsCopyrightAt(line, j) ==> line[j + 1] == 'o'
  {
    if IsCopyrightAt(line, j) {
      assert line[j + 1] == line[j + 1..j + 9][0];
    }
  }

  lemma SkipOne(s: string)
    requires s != "" && !IsDigit(s[0])
    ensures SkipNonDigits(s) == SkipNonDigits(s[1..])
  {
  }

  lemma SkipToYears(s: string, t: string)
    requires s == " (C) " + t && t != "" && IsDigit(t[0])
    ensures SkipNonDigits(s) == t
  {
    SkipOne(s);
    SkipOne(s[1..]);
    assert s[1..][1..] == s[2..];
    SkipOne(s[2..]);
    assert s[2..][1..] == s[3..];
    SkipOne(s[3..]);
    assert s[3..][1..] == s[4..];
    SkipOne(s[4..]);
    assert s[4..][1..] == t;
  }

  /** The decoder finds the lead of the line and skips to the years. */
  lemma DecodeFindsBody(pre: string, ys: seq<int>, author: string)
    requires ys != [] && AreYears(ys) && StrictlyIncreasing(ys) && NoCopyright(author)
    ensures var body := YearsText(ys) + "  " + author + ".";
            Decode(pre + LEAD + body) == DecodeBody(body, SectionLength(body))
  {
    var body := YearsText(ys) + "  " + author + ".";
    var line := pre + LEAD + body;
    var q := |pre| + 1;
    assert LEAD[2..10] == "opyright";
    assert line[q + 1..q + 9] == LEAD[2..10];
    assert line[q] == LEAD[1] == 'C' && line[q + 9] == LEAD[10] == ' ';
    assert IsCopyrightAt(line, q);
    NoLetters(ys[0], ys[0], ys[1..]);
    forall j | q < j <= |line| ensures !IsCopyrightAt(line, j) {
      NoLaterCopyright(pre, YearsText(ys), author, j);
    }
    LastIs(line, |line|, q);
    assert line[q + 9..] == " (C) " + body by {
      assert LEAD[10..] == " (C) ";
    }
    TextStartsWithDigit(ys[0], ys[0], ys[1..]);
    SkipToYears(line[q + 9..], body);
  }

  lemma DecodeLine(pre: string, ys: seq<int>, author: string, n: nat)
    requires ys != [] && AreYears(ys) && StrictlyIncreasing(ys) && NoCopyright(author)
    requires n == |YearsText(ys)| + 2 + Taken(author + ".")
    ensures n <= |YearsText(ys) + "  " + author + "."|
    ensures Decode(pre + LEAD + (YearsText(ys) + "  " + author + "."))
         == DecodeBody(YearsText(ys) + "  " + author + ".", n)
  {
    DecodeFindsBody(pre, ys, author);
    SectionOfBody(ys, author);
  }

  /** A digit, or nothing, comes after what is skipped. */
  lemma {:induction false} SkipTo(line: string, i: nat) returns (k: nat)
    requires i <= |line|
    ensures i <= k <= |line| && SkipNonDigits(line[i..]) == line[k..]
    ensures k < |line| ==> IsDigit(line[k])
    decreases |line| - i
  {
    if i < |line| && !IsDigit(line[i]) {
      SkipOne(line[i..]);
      assert line[i..][1..] == line[i + 1..];
      k := SkipTo(line, i + 1);
    } else {
      k := i;
    }
  }

  /** Where the decoder finds years and author, and what it makes of them. */
  lemma DecodedAt(line: string) returns (k: nat, n: nat)
    requires Decode(line).Match?
    ensures LastCopyright(line, |line|) + 9 <= k <= |line| && (k < |line| ==> IsDigit(line[k]))
    ensures n == SectionLength(line[k..]) && Decode(line) == DecodeBody(line[k..], n)
  {
    k := SkipTo(line, LastCopyright(line, |line|) + 9);
    n := SectionLength(line[k..]);
  }

  /** The author comes after every copyright of the line. */
  lemma AuthorIsShort(line: string, j: nat)
    requires IsCopyrightAt(line, j)
    ensures Decode(line).Match? && |Decode(line).author| <= |line| - j - 9
  {
    var k, n := DecodedAt(line);
    TrimIsPrefix(line[k..][n..]);
  }

  /** A name that mentions a copyright is cut off there. */
  lemma CutAtCopyright(pre: string, text: string, author: string)
    requires !NoCopyright(author)
    ensures var d := Decode(pre + LEAD + (text + "  " + author + "."));
            d.Match? && |d.author| < |author|
  {
    var line := pre + LEAD + (text + "  " + author + ".");
    var p: nat :| p < |author| && IsCopyrightAt(author, p);
    var k := |pre| + |LEAD| + |text| + 2;
    assert line[k..k + |author|] == author;
    CopyrightWithin(line, k, author, p);
    AuthorIsShort(line, k + p);
  }

  /**
    Round trip, for every author: decoding a printed line, whatever precedes
    it, gives back exactly the years and the author; it does so if and only
    if the author is empty or has a proper name.  Otherwise the author is
    lost as well.
   */
  lemma RoundTrip(pre: string, ys: seq<int>, author: string)
    requires ys != [] && AreYears(ys) && StrictlyIncreasing(ys)
    ensures var d := Decode(pre + LEAD + (YearsText(ys) + "  " + author + "."));
            && (d == Match(ys, author) <==> author == "" || IsAuthor(author))
            && d.Match? && (d.author == author ==> d.years == ys)
  {
    if NoCopyright(author) {
      var n := |YearsText(ys)| + 2 + Taken(author + ".");
      DecodeLine(pre, ys, author, n);
      ReadBody(ys, author, n);
    } else {
      CutAtCopyright(pre, YearsText(ys), author);
    }
  }

  // ----- Reading what people write -----

  ghost predicate IsBlank(s: string) {
    forall c | c in s :: IsSpace(c)
  }

  ghost predicate HasNoDigit(s: string) {
    forall c | c in s :: !IsDigit(c)
  }

  /** A year, and after it a comma, a hyphen or nothing between white space. */
  datatype Item = Item(year: int, before: string, mark: string, after: string) {
    ghost predicate Valid() {
      && IsYear(year) && IsBlank(before) && IsBlank(after)
      && (mark == "," || mark == "-" || (mark == "" && before != "" && after == ""))
    }

    function Separator(): string {
      before + mark + after
    }
  }

  /** `s` can follow the separator: it is not a part of it. */
  ghost predicate CanFollow(item: Item, s: string) {
    s == "" || (!IsSpace(s[0]) && (item.mark == "" ==> !IsSeparator(s[0])))
  }

  lemma {:induction false} SpacesOf(p: string, s: string)
    requires IsBlank(p) && (s == "" || !IsSpace(s[0]))
    ensures Spaces(p + s) == |p|
    decreases |p|
  {
    if p == "" {
      assert p + s == s;
    } else {
      assert p[0] in p && (p + s)[1..] == p[1..] + s;
      SpacesOf(p[1..], s);
    }
  }

  lemma SplitAtMark(p: string, m: string, q: string, s: string, u: string)
    requires |m| == 1 && u == p + m + q + s
    ensures u == p + (m + (q + s)) && (m + (q + s))[0] == m[0]
    ensures u[|p|] == m[0] && u[|p| + 1..] == q + s && u[|p + m + q|..] == s
  {
  }

  /** A separator with a mark, and then `s`. */
  lemma MarkAfterSpaces(item: Item, s: string, u: string)
    requires item.Valid() && item.mark != "" && u == item.Separator() + s && CanFollow(item, s)
    ensures Spaces(u) == |item.before| < |u| && u[|item.before|] == item.mark[0]
    ensures Spaces(u[|item.before| + 1..]) == |item.after| && u[|item.Separator()|..] == s
  {
    SplitAtMark(item.before, item.mark, item.after, s, u);
    SpacesOf(item.before, item.mark + (item.after + s));
    SpacesOf(item.after, s);
  }

  lemma SpacesOnly(item: Item, s: string, u: string)
    requires item.Valid() && item.mark == "" && u == item.Separator() + s && CanFollow(item, s)
    ensures Spaces(u) == |item.Separator()| > 0 && u[|item.Separator()|..] == s
  {
    assert item.Separator() == item.before;
    SpacesOf(item.before, s);
  }

  lemma SeparatorOf(item: Item, s: string, u: string)
    requires item.Valid() && CanFollow(item, s) && u == item.Separator() + s
    ensures SeparatorLength(u) == |item.Separator()| > 0
  {
    if item.mark == "" {
      SpacesOnly(item, s, u);
      if s != "" {
        assert u[|item.Separator()|] == s[0];
      }
    } else {
      MarkAfterSpaces(item, s, u);
    }
  }

  lemma RangeOf(item: Item, s: string, u: string)
    requires item.Valid() && CanFollow(item, s) && u == item.Separator() + s
    ensures item.mark == "-" && StartsYear(s) ==> RangeLength(u) == |item.Separator()| + 4
    ensures item.mark != "-" || !StartsYear(s) ==> RangeLength(u) == 0
  {
    if item.mark == "" {
      SpacesOnly(item, s, u);
      if s != "" {
        assert u[|item.Separator()|] == s[0];
      }
    } else {
      MarkAfterSpaces(item, s, u);
    }
  }

  lemma {:induction false} NoYearsIn(p: string, s: string)
    requires HasNoDigit(p)
    ensures YearsIn(p + s) == YearsIn(s)
    decreases |p|
  {
    if p == "" {
      assert p + s == s;
    } else {
      assert p[0] in p && (p + s)[1..] == p[1..] + s;
      NoYearsIn(p[1..], s);
    }
  }

  lemma SeparatorHasNoDigit(item: Item)
    requires item.Valid()
    ensures HasNoDigit(item.Separator())
  {
  }

  /** A hyphen between two years, with any white space around it, stands for all years from one to the other. */
  lemma ReadHyphen(a: string, item: Item, b: string, z: int, t: string)
    requires item.Valid() && item.mark == "-" && YearIs(a, item.year) && YearIs(b, z)
    ensures YearsIn(a + (item.Separator() + (b + t))) == Span(item.year, z) + YearsIn(t)
  {
    var u := item.Separator() + (b + t);
    YearFirst(a, item.year, u);
    YearFirst(b, z, t);
    RangeOf(item, b + t, u);
    var n := |item.Separator()| + 4;
    assert u[n - 4..] == b + t && u[n..] == t;
  }

  /** A year that a comma or white space separates from the next one stands for itself. */
  lemma ReadSingly(a: string, item: Item, t: string)
    requires item.Valid() && CanFollow(item, t) && YearIs(a, item.year)
    requires item.mark != "-" || !StartsYear(t)
    ensures YearsIn(a + (item.Separator() + t)) == [item.year] + YearsIn(t)
  {
    var u := item.Separator() + t;
    RangeOf(item, t, u);
    ReadOne(a, item.year, u);
    SeparatorHasNoDigit(item);
    NoYearsIn(item.Separator(), t);
  }

  ghost predicate AreValid(items: seq<Item>) {
    forall i | 0 <= i < |items| :: items[i].Valid()
  }

  /** A list of years as somebody wrote it. */
  ghost function ItemsText(items: seq<Item>): string
    requires AreValid(items)
  {
    if items == [] then ""
    else YearText(items[0].year) + (items[0].Separator() + ItemsText(items[1..]))
  }

  /** The years that such a list stands for: a hyphen takes the year after it as the end of a range. */
  function ItemsYears(items: seq<Item>): seq<int>
    decreases |items|
  {
    if items == [] then []
    else if |items| > 1 && items[0].mark == "-" then
      Span(items[0].year, items[1].year) + ItemsYears(items[2..])
    else [items[0].year] + ItemsYears(items[1..])
  }

  lemma TextOfItems(items: seq<Item>)
    requires AreValid(items)
    ensures items != [] ==> StartsYear(ItemsText(items)) && !IsSeparator(ItemsText(items)[0])
    ensures items == [] ==> !StartsYear(ItemsText(items))
  {
    if items != [] {
      YearTextIs(items[0].year);
      YearFirst(YearText(items[0].year), items[0].year, items[0].Separator() + ItemsText(items[1..]));
    }
  }

  lemma {:induction false} YearsOfItems(items: seq<Item>)
    requires AreValid(items)
    ensures YearsIn(ItemsText(items)) == ItemsYears(items)
    decreases |items|
  {
    if items != [] {
      var first, rest := items[0], items[1..];
      YearTextIs(first.year);
      TextOfItems(rest);
      if first.mark == "-" && rest != [] {
        var second, more := rest[0], rest[1..];
        assert more == items[2..];
        YearTextIs(second.year);
        YearsOfItems(more);
        ReadHyphen(YearText(first.year), first, YearText(second.year), second.year,
                   second.Separator() + ItemsText(more));
        SeparatorHasNoDigit(second);
        NoYearsIn(second.Separator(), ItemsText(more));
      } else {
        YearsOfItems(rest);
        ReadSingly(YearText(first.year), first, ItemsText(rest));
      }
    }
  }

  /** The section is the whole list, if the name after it does not continue it. */
  lemma {:induction false} SectionOfItems(items: seq<Item>, name: string)
    requires AreValid(items) && !StartsWithYears(name)
    requires items != [] ==> CanFollow(items[|items| - 1], name)
    ensures SectionLength(ItemsText(items) + name) == |ItemsText(items)|
    decreases |items|
  {
    SectionStarts(name);
    if items == [] {
      assert ItemsText(items) + name == name;
    } else {
      var first, rest := items[0], items[1..];
      var s := ItemsText(rest) + name;
      SectionOfItems(rest, name);
      TextOfItems(rest);
      assert rest == [] ==> s == name;
      SeparatorOf(first, s, first.Separator() + s);
      YearTextIs(first.year);
      SectionItem(YearText(first.year), first, ItemsText(rest), name);
    }
  }

  lemma SectionItem(a: string, item: Item, text: string, name: string)
    requires YearIs(a, item.year)
    requires SeparatorLength(item.Separator() + (text + name)) == |item.Separator()| > 0
    ensures SectionLength(a + (item.Separator() + text) + name) == 4 + |item.Separator()| + SectionLength(text + name)
  {
    var sep, s := item.Separator(), text + name;
    assert (sep + s)[|sep|..] == s;
    SectionStep(a, item.year, sep + s, |sep|);
    assert a + (sep + text) + name == a + (sep + s);
  }

  lemma {:induction false} SkipAll(a: string, s: string)
    requires (forall c | c in a :: !IsDigit(c)) && s != "" && IsDigit(s[0])
    ensures SkipNonDigits(a + s) == s
    decreases |a|
  {
    if a == "" {
      assert a + s == s;
    } else {
      assert a[0] in a && (a + s)[1..] == a[1..] + s;
      SkipAll(a[1..], s);
    }
  }

  lemma ListAfterCopyright(line: string, p: int, words: string, items: seq<Item>, name: string)
    requires HasNoDigit(words) && items != [] && AreValid(items)
    requires !StartsWithYears(name) && CanFollow(items[|items| - 1], name)
    requires 0 <= p == LastCopyright(line, |line|) && line[p + 9..] == words + (ItemsText(items) + name)
    ensures Decode(line) == Match(ItemsYears(items), TrimRight(name))
  {
    TextOfItems(items);
    WordsBefore(words, ItemsText(items), name);
    BodyOfItems(items, ItemsText(items), name);
    DecodeAfter(line, p, ItemsText(items) + name);
  }

  lemma WordsBefore(words: string, text: string, name: string)
    requires HasNoDigit(words) && StartsYear(text)
    ensures SkipNonDigits(words + (text + name)) == text + name
  {
    assert (text + name)[0] == text[0];
    SkipAll(words, text + name);
  }

  lemma DecodeAfter(line: string, p: int, s: string)
    requires 0 <= p == LastCopyright(line, |line|) && SkipNonDigits(line[p + 9..]) == s
    ensures Decode(line) == DecodeBody(s, SectionLength(s))
  {
  }

  lemma BodyOfItems(items: seq<Item>, text: string, name: string)
    requires items != [] && AreValid(items) && text == ItemsText(items)
    requires !StartsWithYears(name) && CanFollow(items[|items| - 1], name)
    ensures DecodeBody(text + name, SectionLength(text + name)) == Match(ItemsYears(items), TrimRight(name))
  {
    SectionOfItems(items, name);
    YearsOfItems(items);
    assert (text + name)[..|text|] == text && (text + name)[|text|..] == name;
  }

  ghost predicate IsWord(word: string) {
    && |word| == 9 && (word[0] == 'C' || word[0] == 'c') && word[1..9] == "opyright"
    && forall i | 1 <= i < 9 :: word[i] != 'C' && word[i] != 'c'
  }

  lemma CopyrightIsWord(word: string)
    requires word == "Copyright" || word == "copyright"
    ensures IsWord(word)
  {
    assert word[1..9] == "opyright";
  }

  lemma WordInLine(line: string, pre: string, word: string, tail: string)
    requires IsWord(word) && line == pre + (word + tail)
    ensures line[|pre|..|pre| + 9] == word && line[|pre| + 9..] == tail
    ensures forall i | 0 <= i < 9 :: line[|pre| + i] == word[i]
  {
  }

  lemma NoneAfterWord(line: string, q: nat, word: string, tail: string, j: int)
    requires IsWord(word) && NoCopyright(tail) && q + 9 + |tail| == |line| && line[q + 9..] == tail
    requires forall i | 0 <= i < 9 :: line[q + i] == word[i]
    requires q < j <= |line|
    ensures !IsCopyrightAt(line, j)
  {
    if j < q + 9 {
      assert line[q + (j - q)] == word[j - q];
    } else if IsCopyrightAt(line, j) {
      var p := j - q - 9;
      assert line[q + 9..][p] == line[j] && line[q + 9..][p + 9] == line[j + 9];
      assert line[q + 9..][p + 1..p + 9] == line[j + 1..j + 9];
      assert IsCopyrightAt(tail, p);
    }
  }

  /** The word is found wherever it is written, with a capital or not. */
  lemma CopyrightWord(line: string, pre: string, word: string, tail: string)
    requires IsWord(word) && line == pre + (word + tail)
    requires tail != "" && IsSpace(tail[0]) && NoCopyright(tail)
    ensures LastCopyright(line, |line|) == |pre| && line[|pre| + 9..] == tail
  {
    var q := |pre|;
    WordInLine(line, pre, word, tail);
    SliceWithin(line, q, word, 1, 9);
    assert line[q + 0] == word[0] && line[q + 9] == line[q + 9..][0];
    assert IsCopyrightAt(line, q);
    forall j | q < j <= |line| ensures !IsCopyrightAt(line, j) {
      NoneAfterWord(line, q, word, tail, j);
    }
    LastIs(line, |line|, q);
  }

  /**
    Every line that somebody wrote in this form: "Copyright", words without
    digits, years with any separators, and a name.
   */
  lemma HandWritten(pre: string, word: string, words: string, items: seq<Item>, name: string)
    requires word == "Copyright" || word == "copyright"
    requires words != "" && IsSpace(words[0]) && HasNoDigit(words) && items != [] && AreValid(items)
    requires !StartsWithYears(name) && CanFollow(items[|items| - 1], name)
    requires NoCopyright(words + (ItemsText(items) + name))
    ensures Decode(pre + (word + (words + (ItemsText(items) + name)))) == Match(ItemsYears(items), TrimRight(name))
  {
    var tail := words + (ItemsText(items) + name);
    var line := pre + (word + tail);
    CopyrightIsWord(word);
    CopyrightWord(line, pre, word, tail);
    ListAfterCopyright(line, |pre|, words, items, name);
  }

  /** Without any year the name is skipped together with the other words. */
  lemma NoYearsNoAuthor(line: string, p: int)
    requires 0 <= p == LastCopyright(line, |line|) && HasNoDigit(line[p + 9..])
    ensures Decode(line) == Match([], "")
  {
    SkipEverything(line[p + 9..]);
    DecodeAfter(line, p, "");
  }

  lemma {:induction false} SkipEverything(s: string)
    requires HasNoDigit(s)
    ensures SkipNonDigits(s) == ""
  {
    if s != "" {
      assert s[0] in s;
      SkipEverything(s[1..]);
    }
  }

  // ----- The names that the decoder finds -----

  lemma {:induction false} SpacesEnd(s: string)
    ensures Spaces(s) < |s| ==> !IsSpace(s[Spaces(s)])
  {
    if s != "" && IsSpace(s[0]) {
      SpacesEnd(s[1..]);
    }
  }

  lemma SeparatorEnds(s: string)
    ensures SeparatorLength(s) < |s| ==> !IsSpace(s[SeparatorLength(s)])
  {
    SpacesEnd(s);
    var a := Spaces(s);
    if a < |s| && (s[a] == ',' || s[a] == '-') {
      SpacesEnd(s[a + 1..]);
    }
  }

  /** The section is as long as possible, and no white space follows it. */
  lemma {:induction false} SectionEnds(s: string)
    ensures var n := SectionLength(s);
            SectionLength(s[n..]) == 0 && (0 < n < |s| ==> !IsSpace(s[n]))
  {
    if StartsYear(s) && SeparatorLength(s[4..]) > 0 {
      var k := 4 + SeparatorLength(s[4..]);
      var m := SectionLength(s[k..]);
      SectionEnds(s[k..]);
      assert s[k..][m..] == s[k + m..];
      SeparatorEnds(s[4..]);
    } else {
      assert s[0..] == s;
    }
  }

  /** A name in a line after its last copyright does not mention one. */
  lemma NameHasNoCopyright(line: string, q: int, k: nat, name: string)
    requires q == LastCopyright(line, |line|) && q < k
    requires k + |name| <= |line| && line[k..k + |name|] == name
    ensures NoCopyright(name)
  {
    forall p | 0 <= p < |name| ensures !IsCopyrightAt(name, p) {
      if IsCopyrightAt(name, p) {
        CopyrightWithin(line, k, name, p);
      }
    }
  }

  /** What follows the section. */
  lemma AfterSection(s: string, n: nat, rest: string)
    requires (s != "" ==> IsDigit(s[0])) && n == SectionLength(s) && rest == s[n..]
    ensures !StartsWithYears(rest) && (rest != "" ==> !IsSpace(rest[0]))
  {
    SectionEnds(s);
    SectionStarts(rest);
  }

  /** Where the author starts that the decoder finds. */
  lemma AuthorAt(line: string) returns (j: nat, rest: string)
    requires Decode(line).Match?
    ensures LastCopyright(line, |line|) < j <= |line| && rest == line[j..]
    ensures Decode(line).author == TrimRight(rest)
    ensures !StartsWithYears(rest) && (rest != "" ==> !IsSpace(rest[0]))
  {
    var k, n := DecodedAt(line);
    j, rest := k + n, line[k + n..];
    assert line[k..][n..] == rest;
    AfterSection(line[k..], n, rest);
  }

  lemma StartOfName(rest: string, name: string)
    requires |name| <= |rest| && name == rest[..|name|]
    requires !StartsWithYears(rest) && (rest != "" ==> !IsSpace(rest[0]))
    ensures !StartsWithYears(name) && (name != "" ==> !IsSpace(name[0]))
  {
  }

  lemma PrefixAt(line: string, j: nat, rest: string, name: string)
    requires j <= |line| && rest == line[j..] && |name| <= |rest| && name == rest[..|name|]
    ensures line[j..j + |name|] == name
  {
  }

  /** What is known of the name that the decoder finds. */
  lemma DecodedName(line: string, name: string)
    requires Decode(line).Match? && name == Decode(line).author
    ensures NoCopyright(name) && !StartsWithYears(name)
    ensures name != "" ==> !IsSpace(name[0]) && name[|name| - 1] != ' ' && name[|name| - 1] != '.'
  {
    var j, rest := AuthorAt(line);
    TrimIsPrefix(rest);
    StartOfName(rest, name);
    PrefixAt(line, j, rest, name);
    NameHasNoCopyright(line, LastCopyright(line, |line|), j, name);
  }

  /**
    All that can be wrong with a name that was decoded is a comma or hyphen in
    front: the separator before it takes only one of them.
   */
  lemma DecodedAuthor(line: string, name: string)
    requires Decode(line).Match? && name == Decode(line).author && name != ""
    ensures IsAuthor(name) <==> name[0] != ',' && name[0] != '-'
  {
    DecodedName(line, name);
  }

  // ----- The years that the decoder finds -----

  lemma {:induction false} SpanOfYears(first: int, last: int)
    requires IsYear(first) && IsYear(last)
    ensures AreYears(Span(first, last))
    decreases last - first
  {
    if first < last {
      SpanOfYears(first + 1, last);
    } else if first == last {
      ShortSpans(first);
    }
  }

  lemma {:induction false} YearsAreYears(s: string)
    ensures AreYears(YearsIn(s))
    decreases |s|
  {
    if s != "" {
      if StartsYear(s) {
        var n := RangeLength(s[4..]);
        YearsAreYears(s[4..][n..]);
        YearsInStep(s);
        SpanOfYears(YearAt(s), if n > 0 then YearAt(s[4..][n - 4..]) else YearAt(s));
      } else {
        YearsAreYears(s[1..]);
      }
    }
  }

  lemma CanonicalAreYears(ys: seq<int>, currentYear: int)
    requires AreYears(ys) && IsYear(currentYear)
    ensures var zs := CanonicalYears(ys, currentYear);
            && zs != [] && AreYears(zs) && StrictlyIncreasing(zs)
            && CanonicalYears(zs, currentYear) == zs
  {
    var zs := CanonicalYears(ys, currentYear);
    if ys != [] {
      CanonicalIsSorted(ys);
      assert ys[0] in ys;
      forall i | 0 <= i < |zs| ensures IsYear(zs[i]) {
        assert zs[i] in zs;
      }
    }
    CanonicalOfSorted(zs);
  }

  // ----- Rewriting -----

  ghost function Printed(ys: seq<int>, author: string): string
    requires ys != [] && AreYears(ys)
  {
    LEAD + YearsText(ys) + "  " + author + "."
  }

  lemma LineForm(pre: string, text: string, author: string)
    ensures pre + (LEAD + text + "  " + author + ".") == pre + LEAD + (text + "  " + author + ".")
  {
  }

  /**
    Any list of years, once sorted and without duplicates, survives printing,
    decoding and sorting again, with every author that is read back.
   */
  lemma CanonicalRoundTrip(pre: string, xs: seq<int>, author: string, currentYear: int)
    requires AreYears(xs) && IsYear(currentYear)
    ensures var ys := CanonicalYears(xs, currentYear);
            && ys != [] && AreYears(ys) && StrictlyIncreasing(ys) && CanonicalYears(ys, currentYear) == ys
            && Decode(pre + Printed(ys, author)).Match?
            && (Decode(pre + Printed(ys, author)) == Match(ys, author) <==> author == "" || IsAuthor(author))
            && (Decode(pre + Printed(ys, author)).author == author <==> author == "" || IsAuthor(author))
  {
    CanonicalAreYears(xs, currentYear);
    var ys := CanonicalYears(xs, currentYear);
    LineForm(pre, YearsText(ys), author);
    RoundTrip(pre, ys, author);
  }

  /** No blank at either end and no two blanks in a row. */
  ghost predicate SingleBlanks(s: string) {
    && s != "" && s[0] != ' ' && s[|s| - 1] != ' '
    && forall i | 0 <= i < |s| - 1 :: s[i] != ' ' || s[i + 1] != ' '
  }

  lemma JoinSingleBlanks(a: string, sep: string, b: string)
    requires SingleBlanks(a) && SingleBlanks(b) && (sep == ", " || sep == " - ")
    ensures SingleBlanks(a + sep + b)
  {
    var s := a + sep + b;
    var k := |a| + |sep|;
    assert s[0] == a[0] && s[|s| - 1] == b[|b| - 1];
    forall i | 0 <= i < |s| - 1 ensures s[i] != ' ' || s[i + 1] != ' ' {
      if i < |a| - 1 {
        assert s[i] == a[i] && s[i + 1] == a[i + 1];
      } else if i >= k {
        assert s[i] == b[i - k] && s[i + 1] == b[i - k + 1];
      }
    }
  }

  lemma RunHasSingleBlanks(first: int, last: int)
    requires IsYear(first) && IsYear(last)
    ensures SingleBlanks(RunText(first, last))
  {
    var a, b := YearText(first), YearText(last);
    assert SingleBlanks(a) && SingleBlanks(b);
    if last > first + 1 {
      JoinSingleBlanks(a, " - ", b);
    } else if last > first {
      JoinSingleBlanks(a, ", ", b);
    }
  }

  lemma {:induction false} TextHasSingleBlanks(first: int, last: int, rest: seq<int>)
    requires IsYear(first) && IsYear(last) && AreYears(rest)
    ensures SingleBlanks(TextFrom(first, last, rest))
    decreases |rest|
  {
    if rest == [] {
      RunHasSingleBlanks(first, last);
    } else if rest[0] == last + 1 {
      TextHasSingleBlanks(first, rest[0], rest[1..]);
    } else {
      RunHasSingleBlanks(first, last);
      TextHasSingleBlanks(rest[0], rest[0], rest[1..]);
      JoinSingleBlanks(RunText(first, last), ", ", TextFrom(rest[0], rest[0], rest[1..]));
    }
  }

  lemma BlanksInside(s: string, k: nat, u: string)
    requires k + 1 < |s| && s[k] == ' ' && s[k + 1] == ' '
    requires |u| <= |s| && u == s[..|u|]
    ensures k < |u| ==> !SingleBlanks(u)
  {
    assert k < |u| ==> u[k] == ' ';
    assert k + 1 < |u| ==> u[k + 1] == ' ';
  }

  /** Two blanks end the years, so the line determines what comes after them. */
  lemma BlanksEndYears(t: string, a: string, u: string, b: string)
    requires SingleBlanks(t) && SingleBlanks(u) && |t| <= |u|
    requires t + "  " + a + "." == u + "  " + b + "."
    ensures t == u && a == b
  {
    var s := t + "  " + a + ".";
    assert t == s[..|t|] && u == s[..|u|];
    assert a == s[|t| + 2..|s| - 1] && b == s[|u| + 2..|s| - 1];
    BlanksInside(s, |t|, u);
  }

  /** No two authors are printed as the same line, whatever the years. */
  lemma PrintedAuthor(ys: seq<int>, a: string, zs: seq<int>, b: string)
    requires ys != [] && AreYears(ys) && zs != [] && AreYears(zs)
    requires Printed(ys, a) == Printed(zs, b)
    ensures a == b
  {
    var t, u := YearsText(ys), YearsText(zs);
    TextHasSingleBlanks(ys[0], ys[0], ys[1..]);
    TextHasSingleBlanks(zs[0], zs[0], zs[1..]);
    assert t + "  " + a + "." == Printed(ys, a)[|LEAD|..];
    assert u + "  " + b + "." == Printed(zs, b)[|LEAD|..];
    if |t| <= |u| {
      BlanksEndYears(t, a, u, b);
    } else {
      BlanksEndYears(u, b, t, a);
    }
  }

  /** A copyright line always matches the pattern of the decoder. */
  lemma CopyrightLineMatches(text: string)
    requires IsCopyrightLine(text)
    ensures Decode(text).Match?
  {
    var p, q :| 0 <= p < |text| && p + 10 <= q < |text| && IsLeadAt(text, p) && IsOwnerAt(text, q);
    AuthorIsShort(text, p);
  }

  /**
    What is known after some texts of a file: the years of all copyright lines
    among them, and the author of the last one.
   */
  ghost function Collected(texts: seq<string>): (d: Decoded)
    ensures d.Match?
  {
    if texts == [] then Match([], "")
    else
      var before, text := Collected(texts[..|texts| - 1]), texts[|texts| - 1];
      if !IsCopyrightLine(text) then before
      else match Decode(text)
        case NoMatch => before
        case Match(ys, author) => Match(before.years + ys, author)
  }

  lemma CollectedSnoc(texts: seq<string>, text: string)
    ensures Collected(texts + [text])
         == if IsCopyrightLine(text) then Match(Collected(texts).years + Decode(text).years, Decode(text).author)
            else Collected(texts)
  {
    assert (texts + [text])[..|texts|] == texts;
    if IsCopyrightLine(text) {
      CopyrightLineMatches(text);
    }
  }

  /** Text `i` is the last copyright line. */
  ghost predicate IsLastLine(texts: seq<string>, i: int) {
    && 0 <= i < |texts| && IsCopyrightLine(texts[i])
    && forall j | i < j < |texts| :: !IsCopyrightLine(texts[j])
  }

  /** Year `y` stands in copyright line `i`. */
  ghost predicate IsYearOfLine(texts: seq<string>, i: int, y: int) {
    && 0 <= i < |texts| && IsCopyrightLine(texts[i])
    && Decode(texts[i]).Match? && y in Decode(texts[i]).years
  }

  /** The years are those of all copyright lines. */
  lemma {:induction false} CollectedYears(texts: seq<string>, y: int)
    ensures y in Collected(texts).years <==> exists i :: IsYearOfLine(texts, i, y)
    decreases |texts|
  {
    if texts != [] {
      var front, text := texts[..|texts| - 1], texts[|texts| - 1];
      assert front + [text] == texts;
      CollectedYears(front, y);
      CollectedSnoc(front, text);
      YearsSnoc(front, text, y);
      if IsCopyrightLine(text) {
        CopyrightLineMatches(text);
      }
    }
  }

  lemma AuthorOfLast(before: seq<string>, text: string, after: seq<string>)
    requires IsCopyrightLine(text) && AreOthers(after)
    ensures Decode(text).Match? && Collected(before + [text] + after).author == Decode(text).author
  {
    CopyrightLineMatches(text);
    CollectedSnoc(before, text);
    CollectedOthers(before + [text], after);
  }

  lemma SplitTexts(texts: seq<string>, i: int)
    requires IsLastLine(texts, i)
    ensures texts[..i] + [texts[i]] + texts[i + 1..] == texts && AreOthers(texts[i + 1..])
  {
  }

  /** The author is that of the last copyright line. */
  lemma CollectedAuthor(texts: seq<string>, i: int)
    requires IsLastLine(texts, i)
    ensures Decode(texts[i]).Match? && Collected(texts).author == Decode(texts[i]).author
  {
    SplitTexts(texts, i);
    AuthorOfLast(texts[..i], texts[i], texts[i + 1..]);
  }

  lemma YearsSnoc(front: seq<string>, text: string, y: int)
    ensures (exists i :: IsYearOfLine(front + [text], i, y))
            <==> (exists i :: IsYearOfLine(front, i, y))
                 || (IsCopyrightLine(text) && Decode(text).Match? && y in Decode(text).years)
  {
    var texts := front + [text];
    if i :| IsYearOfLine(texts, i, y) {
      assert i < |front| ==> IsYearOfLine(front, i, y);
    }
    if i :| IsYearOfLine(front, i, y) {
      assert IsYearOfLine(texts, i, y);
    }
    if IsCopyrightLine(text) && Decode(text).Match? && y in Decode(text).years {
      assert IsYearOfLine(texts, |front|, y);
    }
  }

  /** Texts that are no copyright lines. */
  ghost predicate AreOthers(texts: seq<string>) {
    forall i | 0 <= i < |texts| :: !IsCopyrightLine(texts[i])
  }

  lemma MoveFirst(texts: seq<string>, others: seq<string>)
    requires others != []
    ensures texts + others == texts + [others[0]] + others[1..]
    ensures AreOthers(others) ==> !IsCopyrightLine(others[0]) && AreOthers(others[1..])
  {
  }

  lemma {:induction false} CollectedOthers(texts: seq<string>, others: seq<string>)
    requires AreOthers(others)
    ensures Collected(texts + others) == Collected(texts)
    decreases |others|
  {
    if others == [] {
      assert texts + others == texts;
    } else {
      MoveFirst(texts, others);
      CollectedSnoc(texts, others[0]);
      CollectedOthers(texts + [others[0]], others[1..]);
    }
  }

  lemma CollectedOne(before: seq<string>, text: string, after: seq<string>)
    requires AreOthers(before) && AreOthers(after)
    ensures IsCopyrightLine(text) ==> Collected(before + [text] + after) == Decode(text)
    ensures !IsCopyrightLine(text) ==> Collected(before + [text] + after) == Match([], "")
  {
    CollectedOthers([], before);
    assert [] + before == before;
    CollectedSnoc(before, text);
    CollectedOthers(before + [text], after);
    if IsCopyrightLine(text) {
      CopyrightLineMatches(text);
      assert [] + Decode(text).years == Decode(text).years;
    }
  }

  lemma {:induction false} CollectedIsSound(texts: seq<string>)
    ensures AreYears(Collected(texts).years)
    ensures var name := Collected(texts).author;
            name != "" ==> (IsAuthor(name) <==> name[0] != ',' && name[0] != '-')
  {
    if texts != [] {
      var text := texts[|texts| - 1];
      CollectedIsSound(texts[..|texts| - 1]);
      if IsCopyrightLine(text) && Decode(text).Match? {
        var k, n := DecodedAt(text);
        YearsAreYears(text[k..][..n]);
        if Decode(text).author != "" {
          DecodedAuthor(text, Decode(text).author);
        }
      }
    }
  }

  // ----- What copyright lines look like -----

  /** The text with the word, a blank, and the owner anywhere after it. */
  ghost predicate IsSplit(text: string, pre: string, word: string, mid: string, post: string) {
    && (word == "Copyright" || word == "copyright")
    && text == pre + (word + (" " + (mid + (DEFAULT_AUTHOR + post))))
  }

  lemma SplitIsCopyrightLine(text: string, pre: string, word: string, mid: string, post: string)
    requires IsSplit(text, pre, word, mid, post)
    ensures IsCopyrightLine(text)
  {
    var rest := DEFAULT_AUTHOR + post;
    var p, q := |pre|, |pre| + 10 + |mid|;
    CopyrightIsWord(word);
    WordInLine(text, pre, word, " " + (mid + rest));
    SliceWithin(text, p, word, 1, 9);
    assert text[p + 0] == word[0] && text[p + 9] == text[p + 9..][0];
    OwnerAfter(text, pre + (word + " ") + mid, post);
    assert IsLeadAt(text, p) && IsOwnerAt(text, q);
  }

  lemma OwnerAfter(text: string, front: string, post: string)
    requires text == front + (DEFAULT_AUTHOR + post)
    ensures IsOwnerAt(text, |front|)
  {
  }

  lemma SplitAtLead(text: string, p: nat) returns (word: string)
    requires IsLeadAt(text, p)
    ensures word == "Copyright" || word == "copyright"
    ensures text[p..p + 9] == word && text[p + 9] == ' '
  {
    word := text[p..p + 9];
    assert word == [text[p]] + text[p + 1..p + 9];
    assert "Copyright" == ['C'] + "opyright" && "copyright" == ['c'] + "opyright";
  }

  lemma JoinParts(text: string, p: nat, q: nat, word: string)
    requires p + 10 <= q && q + 10 <= |text| && text[p..p + 9] == word && text[p + 9] == ' '
    requires text[q..q + 10] == DEFAULT_AUTHOR
    ensures text == text[..p] + (word + (" " + (text[p + 10..q] + (DEFAULT_AUTHOR + text[q + 10..]))))
  {
    Cut(text, 0, p);
    Cut(text, p, p + 9);
    Cut(text, p + 9, p + 10);
    assert text[p + 9..p + 10] == " ";
    Cut(text, p + 10, q);
    Cut(text, q, q + 10);
    assert text[0..] == text && text[0..p] == text[..p];
  }

  lemma Cut(s: string, i: nat, j: nat)
    requires i <= j <= |s|
    ensures s[i..] == s[i..j] + s[j..]
  {
  }

  /** A text is a copyright line if and only if it can be split like that. */
  lemma CopyrightLineForm(text: string)
    ensures IsCopyrightLine(text) <==> exists pre, word, mid, post :: IsSplit(text, pre, word, mid, post)
  {
    if IsCopyrightLine(text) {
      var p, q :| 0 <= p < |text| && p + 10 <= q < |text| && IsLeadAt(text, p) && IsOwnerAt(text, q);
      var word := SplitAtLead(text, p);
      JoinParts(text, p, q, word);
      assert IsSplit(text, text[..p], word, text[p + 10..q], text[q + 10..]);
    }
    if pre, word, mid, post :| IsSplit(text, pre, word, mid, post) {
      SplitIsCopyrightLine(text, pre, word, mid, post);
    }
  }

  // ----- Which printed lines are copyright lines -----

  lemma OwnerLetters(text: string, q: int)
    requires IsOwnerAt(text, q)
    ensures text[q] == 'C' && text[q + 1] == 'a' && text[q + 9] == 'd'
  {
    var here := text[q..q + 10];
    assert here[0] == text[q] && here[1] == text[q + 1] && here[9] == text[q + 9];
  }

  lemma OwnerWithin(line: string, k: nat, s: string, q: int)
    requires k + |s| <= |line| && line[k..k + |s|] == s && 0 <= q && q + 10 <= |s|
    ensures IsOwnerAt(s, q) <==> IsOwnerAt(line, k + q)
  {
    SliceWithin(line, k, s, q, q + 10);
  }

  lemma LettersBeforeAuthor(line: string, text: string, author: string, q: int)
    requires line == LEAD + text + "  " + author + "." && (forall c | c in text :: c != 'C' && c != 'c')
    requires 0 <= q < |LEAD| + |text| + 2
    ensures line[q] == 'C' ==> line[q + 1] != 'a'
  {
    if q < |LEAD| - 1 {
      assert line[q] == LEAD[q] && line[q + 1] == LEAD[q + 1];
      assert LEAD[2] == 'o' && LEAD[13] == ')';
    } else if q < |LEAD| {
      assert line[q] == LEAD[14] == ' ';
    } else if q < |LEAD| + |text| {
      assert line[q] == text[q - |LEAD|] && text[q - |LEAD|] in text;
    }
  }

  /** The owner can be mentioned in the author of a printed line only. */
  lemma OwnerIsAuthor(line: string, text: string, author: string, q: int)
    requires line == LEAD + text + "  " + author + "." && (forall c | c in text :: c != 'C' && c != 'c')
    requires IsOwnerAt(line, q)
    ensures var k := |LEAD| + |text| + 2;
            k <= q && IsOwnerAt(author, q - k)
  {
    var k := |LEAD| + |text| + 2;
    OwnerLetters(line, q);
    if q < k {
      LettersBeforeAuthor(line, text, author, q);
      assert false;
    }
    assert line[|line| - 1] == '.';
    assert line[k..k + |author|] == author;
    OwnerWithin(line, k, author, q - k);
  }

  lemma PrintedOwner(line: string, text: string, author: string)
    requires line == LEAD + text + "  " + author + "." && (forall c | c in text :: c != 'C' && c != 'c')
    ensures IsCopyrightLine(line) <==> MentionsOwner(author)
  {
    var k := |LEAD| + |text| + 2;
    if IsCopyrightLine(line) {
      var p, q :| 0 <= p < |line| && p + 10 <= q < |line| && IsLeadAt(line, p) && IsOwnerAt(line, q);
      OwnerIsAuthor(line, text, author, q);
    }
    if MentionsOwner(author) {
      var q :| 0 <= q < |author| && IsOwnerAt(author, q);
      assert line[k..k + |author|] == author;
      OwnerWithin(line, k, author, q);
      LeadOfLine(line, text + "  " + author + ".");
      assert IsLeadAt(line, 1) && IsOwnerAt(line, k + q);
    }
  }

  lemma LeadOfLine(line: string, body: string)
    requires line == LEAD + body
    ensures IsLeadAt(line, 1)
  {
    assert LEAD[2..10] == "opyright";
    assert line[2..10] == LEAD[2..10];
    assert line[1] == LEAD[1] == 'C' && line[10] == LEAD[10] == ' ';
  }

  /** A printed line is found again if and only if its author mentions the owner. */
  lemma PrintedIsCopyrightLine(ys: seq<int>, author: string)
    requires ys != [] && AreYears(ys)
    ensures IsCopyrightLine(Printed(ys, author)) <==> MentionsOwner(author)
  {
    NoLetters(ys[0], ys[0], ys[1..]);
    PrintedOwner(Printed(ys, author), YearsText(ys), author);
  }

  // ----- Rewriting a file -----

  /** The copyright line that is written for a file with these texts. */
  ghost function Rewritten(texts: seq<string>, currentYear: int): string
    requires IsYear(currentYear)
  {
    var d := Collected(texts);
    CollectedIsSound(texts);
    CanonicalAreYears(d.years, currentYear);
    Printed(CanonicalYears(d.years, currentYear), CanonicalAuthor(d.author))
  }

  lemma OwnerIsProper()
    ensures IsAuthor(DEFAULT_AUTHOR) && MentionsOwner(DEFAULT_AUTHOR)
  {
    var a := DEFAULT_AUTHOR;
    forall p | 0 <= p < |a| ensures !IsCopyrightAt(a, p) {
      CopyrightLetters(a, p);
      assert a[1] == 'a';
    }
    assert a[0..|a|] == a;
    assert IsOwnerAt(a, 0);
  }

  /** The file that is found again: its author and its years are the same. */
  lemma RewriteFound(texts: seq<string>, before: seq<string>, after: seq<string>, year: int, laterYear: int)
    requires IsYear(year) && IsYear(laterYear) && AreOthers(before) && AreOthers(after)
    requires MentionsOwner(CanonicalAuthor(Collected(texts).author))
    ensures Rewritten(before + [Rewritten(texts, year)] + after, laterYear) == Rewritten(texts, year)
            <==> IsAuthor(CanonicalAuthor(Collected(texts).author))
  {
    var d := Collected(texts);
    var line := Rewritten(texts, year);
    CollectedIsSound(texts);
    var ys, author := CanonicalYears(d.years, year), CanonicalAuthor(d.author);
    CanonicalRoundTrip("", d.years, author, year);
    assert "" + line == line;
    PrintedIsCopyrightLine(ys, author);
    CollectedOne(before, line, after);
    CollectedIsSound(before + [line] + after);
    var d' := Decode(line);
    CanonicalAreYears(d'.years, laterYear);
    var ys', author' := CanonicalYears(d'.years, laterYear), CanonicalAuthor(d'.author);
    if IsAuthor(author) {
      CanonicalOfSorted(ys);
      assert Printed(ys', author') == Printed(ys, author);
    } else if Printed(ys', author') == Printed(ys, author) {
      PrintedAuthor(ys', author', ys, author);
      OwnerIsProper();
      assert false;
    }
  }

  /** The line is not found again: its years and its author are lost. */
  lemma RewriteLost(texts: seq<string>, before: seq<string>, after: seq<string>, year: int, laterYear: int)
    requires IsYear(year) && IsYear(laterYear) && AreOthers(before) && AreOthers(after)
    requires !MentionsOwner(CanonicalAuthor(Collected(texts).author))
    ensures Rewritten(before + [Rewritten(texts, year)] + after, laterYear) == Printed([laterYear], DEFAULT_AUTHOR)
    ensures Printed([laterYear], DEFAULT_AUTHOR) != Rewritten(texts, year)
  {
    var d := Collected(texts);
    var line := Rewritten(texts, year);
    CollectedIsSound(texts);
    CanonicalAreYears(d.years, year);
    var ys, author := CanonicalYears(d.years, year), CanonicalAuthor(d.author);
    PrintedIsCopyrightLine(ys, author);
    CollectedOne(before, line, after);
    OwnerIsProper();
    if Printed([laterYear], DEFAULT_AUTHOR) == Printed(ys, author) {
      PrintedAuthor([laterYear], DEFAULT_AUTHOR, ys, author);
      assert false;
    }
  }

  /**
    The copyright line of a rewritten file is not changed when the file is
    rewritten again, in whatever year and whatever other texts are in it, if
    and only if the author found in it mentions the owner and does not start
    with a comma or hyphen, or no author was found.
   */
  lemma RewriteIsStable(texts: seq<string>, before: seq<string>, after: seq<string>, year: int, laterYear: int)
    requires IsYear(year) && IsYear(laterYear) && AreOthers(before) && AreOthers(after)
    ensures var name := Collected(texts).author;
            Rewritten(before + [Rewritten(texts, year)] + after, laterYear) == Rewritten(texts, year)
            <==> name == "" || (MentionsOwner(name) && name[0] != ',' && name[0] != '-')
  {
    var name := Collected(texts).author;
    CollectedIsSound(texts);
    OwnerIsProper();
    if MentionsOwner(CanonicalAuthor(name)) {
      RewriteFound(texts, before, after, year, laterYear);
    } else {
      RewriteLost(texts, before, after, year, laterYear);
    }
  }

  /** The years of the copyright lines of a file, or the current year if there are none. */
  ghost predicate IsYearOfFile(texts: seq<string>, currentYear: int, y: int) {
    if exists i, z :: IsYearOfLine(texts, i, z) then exists i :: IsYearOfLine(texts, i, y) else y == currentYear
  }

  /** The author of the last copyright line, or the owner if there is none. */
  ghost predicate IsAuthorOfFile(texts: seq<string>, author: string) {
    && (forall i | IsLastLine(texts, i) && Decode(texts[i]).Match? ::
          author == if Decode(texts[i]).author == "" then DEFAULT_AUTHOR else Decode(texts[i]).author)
    && (AreOthers(texts) ==> author == DEFAULT_AUTHOR)
  }

  /** The line shows each year of the file once, in order, and its author. */
  ghost predicate IsHeaderOf(os: string, texts: seq<string>, currentYear: int) {
    exists ys, author {:trigger IsAuthorOfFile(texts, author), StrictlyIncreasing(ys)} ::
      && ys != [] && AreYears(ys) && StrictlyIncreasing(ys) && os == LEAD + YearsText(ys) + "  " + author + "."
      && (forall y :: y in ys <==> IsYearOfFile(texts, currentYear, y))
      && IsAuthorOfFile(texts, author)
  }

  lemma CollectedIsEmpty(texts: seq<string>)
    ensures Collected(texts).years == [] <==> !exists i, z :: IsYearOfLine(texts, i, z)
  {
    var ys := Collected(texts).years;
    if ys != [] {
      assert ys[0] in ys;
      CollectedYears(texts, ys[0]);
    }
    if i, z :| IsYearOfLine(texts, i, z) {
      CollectedYears(texts, z);
    }
  }

  lemma AuthorOfFile(texts: seq<string>)
    ensures IsAuthorOfFile(texts, CanonicalAuthor(Collected(texts).author))
  {
    forall i | IsLastLine(texts, i)
      ensures Decode(texts[i]).Match? && Collected(texts).author == Decode(texts[i]).author
    {
      CollectedAuthor(texts, i);
    }
    if AreOthers(texts) {
      CollectedOthers([], texts);
      assert [] + texts == texts;
    }
  }

  lemma YearsOfFile(texts: seq<string>, currentYear: int, ys: seq<int>, y: int)
    requires ys == CanonicalYears(Collected(texts).years, currentYear)
    ensures y in ys <==> IsYearOfFile(texts, currentYear, y)
  {
    CollectedIsEmpty(texts);
    CollectedYears(texts, y);
    CanonicalIsSorted(Collected(texts).years);
  }

  lemma RewrittenIsHeader(texts: seq<string>, currentYear: int)
    requires IsYear(currentYear)
    ensures IsHeaderOf(Rewritten(texts, currentYear), texts, currentYear)
  {
    var d := Collected(texts);
    CollectedIsSound(texts);
    CanonicalAreYears(d.years, currentYear);
    var ys, author := CanonicalYears(d.years, currentYear), CanonicalAuthor(d.author);
    forall y ensures y in ys <==> IsYearOfFile(texts, currentYear, y) {
      YearsOfFile(texts, currentYear, ys, y);
    }
    AuthorOfFile(texts);
    assert StrictlyIncreasing(ys) && IsAuthorOfFile(texts, author);
  }

  /** The copyright lines of a file are decoded one after the other; the header is put in order and printed. */
  method Rewrite(texts: seq<string>, currentYear: int) returns (os: string)
    requires IsYear(currentYear)
    ensures os == Rewritten(texts, currentYear)
    ensures IsHeaderOf(os, texts, currentYear)
  {
    var header := new Header();
    for i := 0 to |texts|
      invariant Match(header.copyrightYears, header.author) == Collected(texts[..i])
    {
      assert texts[..i + 1] == texts[..i] + [texts[i]];
      CollectedSnoc(texts[..i], texts[i]);
      if IsCopyrightLine(texts[i]) {
        CopyrightLineMatches(texts[i]);
        header.DecodeCopyrightLine(texts[i]);
      }
    }
    assert texts[..|texts|] == texts;
    CollectedIsSound(texts);
    CanonicalAreYears(header.copyrightYears, currentYear);
    header.Canonicalize(currentYear);
    os := header.PrintCopyright();
    RewrittenIsHeader(texts, currentYear);
  }

  /** A file is rewritten, and the result, with whatever other texts, is rewritten once more. */
  method RewriteTwice(texts: seq<string>, before: seq<string>, after: seq<string>, year: int, laterYear: int)
    returns (first: string, second: string)
    requires IsYear(year) && IsYear(laterYear) && AreOthers(before) && AreOthers(after)
    ensures first == Rewritten(texts, year)
    ensures second == Rewritten(before + [first] + after, laterYear)
    ensures var name := Collected(texts).author;
            first == second <==> name == "" || (MentionsOwner(name) && name[0] != ',' && name[0] != '-')
  {
    RewriteIsStable(texts, before, after, year, laterYear);
    first := Rewrite(texts, year);
    second := Rewrite(before + [first] + after, laterYear);
  }

  // ----- Two files that are changed -----

  /** One year with the separator `sep` after it, and then a name. */
  lemma OneYear(year: string, y: int, sep: string, name: string)
    requires YearIs(year, y) && SeparatorLength(sep + name) == |sep| > 0
    requires SectionLength(name) == 0 && TrimRight(name) == name
    requires RangeLength(sep) == 0 && YearsIn(sep) == []
    ensures var s := year + (sep + name);
            SectionLength(s) == 4 + |sep| && DecodeBody(s, 4 + |sep|) == Match([y], name)
  {
    var s := year + (sep + name);
    assert (sep + name)[|sep|..] == name;
    SectionStep(year, y, sep + name, |sep|);
    assert s[..4 + |sep|] == year + sep && s[4 + |sep|..] == name;
    ReadOne(year, y, sep);
  }

  lemma Year2001()
    ensures YearIs("2001", 2001)
  {
    var year := "2001";
    assert year[0] == '2' && year[1] == '0' && year[2] == '0' && year[3] == '1';
  }

  lemma OnlyCopyright(line: string, rest: string)
    requires line == "Copyright" + rest && rest != "" && rest[0] == ' '
    requires forall i | 0 <= i < |rest| - 1 :: rest[i] == 'C' || rest[i] == 'c' ==> rest[i + 1] != 'o'
    ensures LastCopyright(line, |line|) == 0 && IsLeadAt(line, 0)
  {
    assert line[1..9] == "opyright" && IsCopyrightAt(line, 0);
    forall j | 0 < j <= |line| ensures !IsCopyrightAt(line, j) {
      CopyrightLetters(line, j);
      if j < 9 {
        assert line[j] == "Copyright"[j];
      } else if j < |line| - 1 {
        assert line[j] == rest[j - 9] && line[j + 1] == rest[j - 8];
      }
    }
    LastIs(line, |line|, 0);
  }

  /** "Copyright", other words without digits, and then the years; the owner is mentioned at `q`. */
  lemma WordsBeforeYears(line: string, words: string, s: string, q: nat)
    requires line == "Copyright" + (words + s) && s != "" && IsDigit(s[0])
    requires words != "" && words[0] == ' ' && forall c | c in words :: !IsDigit(c)
    requires forall i | 0 <= i < |words + s| - 1 ::
               (words + s)[i] == 'C' || (words + s)[i] == 'c' ==> (words + s)[i + 1] != 'o'
    requires IsOwnerAt(words + s, q) && q > 0
    ensures IsCopyrightLine(line) && Decode(line) == DecodeBody(s, SectionLength(s))
  {
    OnlyCopyright(line, words + s);
    assert line[9..] == words + s;
    SkipAll(words, s);
    OwnerWithin(line, 9, words + s, q);
    assert IsLeadAt(line, 0) && IsOwnerAt(line, 9 + q);
  }

  lemma TrimmedAlready(name: string)
    requires name != "" && name[|name| - 1] != ' ' && name[|name| - 1] != '.'
    ensures TrimRight(name) == name
  {
  }

  lemma HyphenBody(year: string, name: string)
    requires YearIs(year, 2001) && name != "" && name[0] == '-' && TrimRight(name) == name
    ensures DecodeBody(year + (" -" + name), SectionLength(year + (" -" + name))) == Match([2001], name)
  {
    var sep := " -";
    assert (sep + name)[1..] == "-" + name && ("-" + name)[1..] == name;
    assert Spaces("-" + name) == 0 && Spaces(sep + name) == 1 && Spaces(name) == 0;
    assert (sep + name)[2..] == name;
    assert sep[1..] == "-" && "-"[1..] == "" && sep[2..] == "";
    assert Spaces("-") == 0 && Spaces(sep) == 1 && Spaces("") == 0;
    assert YearsIn("-") == [] && YearsIn(sep) == [];
    OneYear(year, 2001, sep, name);
  }

  lemma BlankBody(year: string, name: string)
    requires YearIs(year, 2001) && name != "" && TrimRight(name) == name
    requires !IsSeparator(name[0]) && !StartsYear(name)
    ensures DecodeBody(year + (" " + name), SectionLength(year + (" " + name))) == Match([2001], name)
  {
    var sep := " ";
    assert (sep + name)[1..] == name && Spaces(name) == 0;
    assert sep[1..] == "" && Spaces(sep) == 1 && YearsIn(sep) == [];
    OneYear(year, 2001, sep, name);
  }

  /** The result of rewriting a file, and nothing else, is rewritten. */
  lemma RewriteAlone(texts: seq<string>, year: int, laterYear: int)
    requires IsYear(year) && IsYear(laterYear)
    ensures var name := Collected(texts).author;
            && (Rewritten([Rewritten(texts, year)], laterYear) == Rewritten(texts, year)
                <==> name == "" || (MentionsOwner(name) && name[0] != ',' && name[0] != '-'))
            && (!MentionsOwner(CanonicalAuthor(name)) ==>
                  Rewritten([Rewritten(texts, year)], laterYear) == Printed([laterYear], DEFAULT_AUTHOR))
  {
    var first := Rewritten(texts, year);
    assert [] + [first] + [] == [first];
    RewriteIsStable(texts, [], [], year, laterYear);
    if !MentionsOwner(CanonicalAuthor(Collected(texts).author)) {
      RewriteLost(texts, [], [], year, laterYear);
    }
  }

  lemma CollectedAlone(line: string)
    requires IsCopyrightLine(line)
    ensures Collected([line]) == Decode(line)
  {
    CollectedOne([], line, []);
    assert [] + [line] + [] == [line];
  }

  lemma HyphenText(rest: string)
    requires rest == " 2001 -- Carlo Wood"
    ensures rest == " " + ("2001" + (" -" + "- Carlo Wood"))
    ensures "Copyright 2001 -- Carlo Wood" == "Copyright" + rest
  {
  }

  lemma HyphenLetters(rest: string)
    requires rest == " 2001 -- Carlo Wood"
    ensures IsOwnerAt(rest, 9)
    ensures forall i | 0 <= i < |rest| - 1 :: rest[i] == 'C' || rest[i] == 'c' ==> rest[i + 1] != 'o'
  {
    assert rest == " 2001 -- " + DEFAULT_AUTHOR;
    assert rest[9..19] == DEFAULT_AUTHOR;
  }

  lemma HyphenParts(line: string, rest: string, year: string, name: string)
    requires line == "Copyright" + rest && rest == " " + (year + (" -" + name)) && YearIs(year, 2001)
    requires name != "" && name[0] == '-' && TrimRight(name) == name && IsOwnerAt(rest, 9)
    requires forall i | 0 <= i < |rest| - 1 :: rest[i] == 'C' || rest[i] == 'c' ==> rest[i + 1] != 'o'
    ensures IsCopyrightLine(line) && Decode(line) == Match([2001], name)
  {
    HyphenBody(year, name);
    WordsBeforeYears(line, " ", year + (" -" + name), 9);
  }

  lemma HyphenLine(line: string, name: string)
    requires line == "Copyright 2001 -- Carlo Wood" && name == "- Carlo Wood"
    ensures IsCopyrightLine(line) && Decode(line) == Match([2001], name)
  {
    var rest := " 2001 -- Carlo Wood";
    HyphenText(rest);
    HyphenLetters(rest);
    Year2001();
    TrimmedAlready(name);
    HyphenParts(line, rest, "2001", name);
  }

  /** A name with a hyphen in front: the second rewriting changes the line. */
  lemma HyphenName(line: string, name: string, year: int, laterYear: int)
    requires line == "Copyright 2001 -- Carlo Wood" && name == "- Carlo Wood"
    requires IsYear(year) && IsYear(laterYear)
    ensures IsCopyrightLine(line) && Decode(line) == Match([2001], name)
    ensures Rewritten([Rewritten([line], year)], laterYear) != Rewritten([line], year)
  {
    HyphenLine(line, name);
    CollectedAlone(line);
    RewriteAlone([line], year, laterYear);
  }

  lemma OtherText(rest: string)
    requires rest == " Carlo Wood 2001 Foo"
    ensures rest == " Carlo Wood " + ("2001" + (" " + "Foo"))
    ensures "Copyright Carlo Wood 2001 Foo" == "Copyright" + rest
  {
  }

  lemma OtherLetters(rest: string)
    requires rest == " Carlo Wood 2001 Foo"
    ensures IsOwnerAt(rest, 1)
    ensures forall i | 0 <= i < |rest| - 1 :: rest[i] == 'C' || rest[i] == 'c' ==> rest[i + 1] != 'o'
  {
    assert rest == " " + DEFAULT_AUTHOR + " 2001 Foo";
    assert rest[1..11] == DEFAULT_AUTHOR;
  }

  lemma OtherParts(line: string, words: string, rest: string, year: string, name: string)
    requires line == "Copyright" + rest && rest == words + (year + (" " + name)) && YearIs(year, 2001)
    requires words != "" && words[0] == ' ' && forall c | c in words :: !IsDigit(c)
    requires name != "" && !IsSeparator(name[0]) && !StartsYear(name) && TrimRight(name) == name && IsOwnerAt(rest, 1)
    requires forall i | 0 <= i < |rest| - 1 :: rest[i] == 'C' || rest[i] == 'c' ==> rest[i + 1] != 'o'
    ensures IsCopyrightLine(line) && Decode(line) == Match([2001], name)
  {
    BlankBody(year, name);
    WordsBeforeYears(line, words, year + (" " + name), 1);
  }

  lemma OtherLine(line: string, name: string)
    requires line == "Copyright Carlo Wood 2001 Foo" && name == "Foo"
    ensures IsCopyrightLine(line) && Decode(line) == Match([2001], name)
  {
    var rest := " Carlo Wood 2001 Foo";
    OtherText(rest);
    OtherLetters(rest);
    Year2001();
    TrimmedAlready(name);
    OtherParts(line, " Carlo Wood ", rest, "2001", name);
  }

  /** The owner is mentioned before the years only: years and author are lost. */
  lemma LostName(line: string, name: string, year: int, laterYear: int)
    requires line == "Copyright Carlo Wood 2001 Foo" && name == "Foo"
    requires IsYear(year) && IsYear(laterYear)
    ensures IsCopyrightLine(line) && Decode(line) == Match([2001], name)
    ensures Rewritten([line], year) == Printed([2001], name)
    ensures Rewritten([Rewritten([line], year)], laterYear) == Printed([laterYear], DEFAULT_AUTHOR)
  {
    OtherLine(line, name);
    CollectedAlone(line);
    CanonicalOfSorted([2001]);
    RewriteAlone([line], year, laterYear);
  }
}
