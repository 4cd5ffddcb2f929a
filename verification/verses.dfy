/**
 * Verse records and the parser that reads them from the scripture text: two
 * header lines, then one `<reference><TAB><text>` line per verse, where the
 * reference ends in `<whitespace><chapter>:<verse>`.
 */
module Verses {
  import opened Wrappers
  import opened Text

  datatype Verse = Verse(reference: string, text: string, book: string)

  /** Length of the longest prefix of `s` whose characters all satisfy `p`. */
  function CountWhile(s: string, p: char -> bool): (n: nat)
    ensures n <= |s|
    ensures forall i :: 0 <= i < n ==> p(s[i])
    ensures n < |s| ==> !p(s[n])
  {
    CountFrom(s, p, 0)
  }

  /** The first position at or after `i` whose character fails `p`, or `|s|`. */
  function CountFrom(s: string, p: char -> bool, i: nat): (n: nat)
    requires i <= |s|
    ensures i <= n <= |s|
    ensures forall j :: i <= j < n ==> p(s[j])
    ensures n < |s| ==> !p(s[n])
    decreases |s| - i
  {
    if i == |s| || !p(s[i]) then i else CountFrom(s, p, i + 1)
  }

  predicate AllDigits(s: string) {
    forall i :: 0 <= i < |s| ==> IsDigit(s[i])
  }

  predicate NoLineTerminator(s: string) {
    forall i :: 0 <= i < |s| ==> !IsLineTerminator(s[i])
  }

  /**
   * Whether all of `t` matches `\s+\d+:\d+`. The three character classes are
   * pairwise disjoint, so reading greedily decides the match.
   */
  predicate IsChapterVerseSuffix(t: string) {
    var w := CountWhile(t, IsWhitespace);
    var rest := t[w..];
    var d := CountWhile(rest, IsDigit);
    w >= 1 && d >= 1 && d + 1 < |rest| && rest[d] == ':' && AllDigits(rest[d + 1..])
  }

  /** The same language described by its parts: spaces, digits, a colon, digits. */
  ghost predicate SuffixParts(t: string, a: nat, b: nat) {
    && 1 <= a < b && b + 1 < |t|
    && AllWhitespace(t[..a])
    && AllDigits(t[a..b])
    && t[b] == ':'
    && AllDigits(t[b + 1..])
  }

  lemma {:induction false} ChapterVerseSuffixParts(t: string)
    ensures IsChapterVerseSuffix(t) <==> exists a: nat, b: nat :: SuffixParts(t, a, b)
  {
    var w := CountWhile(t, IsWhitespace);
    var rest := t[w..];
    var d := CountWhile(rest, IsDigit);
    if IsChapterVerseSuffix(t) {
      GreedyParts(t);
    }
    if a: nat, b: nat :| SuffixParts(t, a, b) {
      PartsGreedy(t, a, b);
    }
  }

  /** The greedy whitespace run is all whitespace. */
  lemma WhitespaceRun(t: string)
    ensures AllWhitespace(t[..CountWhile(t, IsWhitespace)])
  {
    var w := CountWhile(t, IsWhitespace);
    var run := t[..w];
    forall i | 0 <= i < w
      ensures IsWhitespace(run[i])
    {
      assert run[i] == t[i];
    }
  }

  /** The greedy digit run after position `w` is all digits. */
  lemma DigitRun(t: string, w: nat)
    requires w <= |t|
    ensures AllDigits(t[w..w + CountWhile(t[w..], IsDigit)])
  {
    var rest := t[w..];
    var d := CountWhile(rest, IsDigit);
    var run := t[w..w + d];
    forall i | 0 <= i < d
      ensures IsDigit(run[i])
    {
      assert run[i] == rest[i];
    }
  }

  /** The greedy reading of a suffix is a reading by parts. */
  lemma GreedyParts(t: string)
    requires IsChapterVerseSuffix(t)
    ensures var w := CountWhile(t, IsWhitespace);
      SuffixParts(t, w, w + CountWhile(t[w..], IsDigit))
  {
    var w := CountWhile(t, IsWhitespace);
    WhitespaceRun(t);
    DigitRun(t, w);
    GreedyColon(t);
  }

  /** After the greedy runs of a suffix come a colon and the final digits. */
  lemma GreedyColon(t: string)
    requires IsChapterVerseSuffix(t)
    ensures var w := CountWhile(t, IsWhitespace);
      var b := w + CountWhile(t[w..], IsDigit);
      1 <= w < b && b + 1 < |t| && t[b] == ':' && AllDigits(t[b + 1..])
  {
    var w := CountWhile(t, IsWhitespace);
    var d := CountWhile(t[w..], IsDigit);
    ColonAt(t, w, d);
  }

  /** The colon and final digits read in `t[w..]` sit at the shifted positions of `t`. */
  lemma ColonAt(t: string, w: nat, d: nat)
    requires w <= |t| && d + 1 < |t[w..]|
    requires t[w..][d] == ':' && AllDigits(t[w..][d + 1..])
    ensures w + d + 1 < |t| && t[w + d] == ':' && AllDigits(t[w + d + 1..])
  {
    assert t[w..][d + 1..] == t[w + d + 1..];
  }

  /** A reading by parts is accepted by the greedy reading. */
  lemma PartsGreedy(t: string, a: nat, b: nat)
    requires SuffixParts(t, a, b)
    ensures IsChapterVerseSuffix(t)
  {
    PartsDetermined(t, a, b);
    var rest := t[a..];
    assert rest[b - a] == t[b];
    assert rest[b - a + 1..] == t[b + 1..];
  }

  /** Any reading by parts puts the parts where the greedy reading does. */
  lemma PartsDetermined(t: string, a: nat, b: nat)
    requires SuffixParts(t, a, b)
    ensures CountWhile(t, IsWhitespace) == a
    ensures CountWhile(t[a..], IsDigit) == b - a
  {
    forall i | 0 <= i < a
      ensures IsWhitespace(t[i])
    {
      assert t[..a][i] == t[i];
    }
    assert t[a..b][0] == t[a];
    CountWhileExact(t, IsWhitespace, a);
    var rest := t[a..];
    forall i | 0 <= i < b - a
      ensures IsDigit(rest[i])
    {
      assert t[a..b][i] == rest[i];
    }
    assert rest[b - a] == t[b];
    CountWhileExact(rest, IsDigit, b - a);
  }

  /** CountWhile stops exactly at the first character failing `p`. */
  lemma CountWhileExact(s: string, p: char -> bool, n: nat)
    requires n <= |s|
    requires forall i :: 0 <= i < n ==> p(s[i])
    requires n < |s| ==> !p(s[n])
    ensures CountWhile(s, p) == n
  {
  }

  /** Whether `reference[..k]` is a book for the pattern `^(.+?)\s+\d+:\d+$`. */
  predicate IsBookEnd(reference: string, k: nat) {
    && 1 <= k <= |reference|
    && NoLineTerminator(reference[..k])
    && IsChapterVerseSuffix(reference[k..])
  }

  /**
   * The book of a reference: the lazy group of `^(.+?)\s+\d+:\d+$`, read by
   * trying ever longer prefixes; `BookOfIsLazyMatch` states what it finds.
   */
  function BookOf(reference: string): (r: Option<string>)
    ensures r.Some? ==> 1 <= |r.value| <= |reference| && r.value == reference[..|r.value|]
  {
    BookFrom(reference, 1)
  }

  /** The first prefix of length `k` or more that ends a book, stopping at a line terminator. */
  function BookFrom(reference: string, k: nat): (r: Option<string>)
    requires 1 <= k <= |reference| + 1
    ensures r.Some? ==> k <= |r.value| <= |reference| && r.value == reference[..|r.value|]
    decreases |reference| + 1 - k
  {
    if k > |reference| then None
    else if IsLineTerminator(reference[k - 1]) then None
    else if IsChapterVerseSuffix(reference[k..]) then Some(reference[..k])
    else BookFrom(reference, k + 1)
  }

  /**
   * BookOf is the lazy match: it yields the shortest non-empty prefix (the
   * group's `.` stops at a line terminator) after which the rest is a
   * chapter:verse suffix, and nothing when there is no such prefix.
   */
  lemma BookOfIsLazyMatch(reference: string)
    ensures BookOf(reference).Some? ==>
      && IsBookEnd(reference, |BookOf(reference).value|)
      && forall j :: 0 <= j < |BookOf(reference).value| ==> !IsBookEnd(reference, j)
    ensures BookOf(reference).None? ==> forall j :: 0 <= j <= |reference| ==> !IsBookEnd(reference, j)
  {
    BookFromIsLazyMatch(reference, 1);
  }

  lemma {:induction false} BookFromIsLazyMatch(reference: string, k: nat)
    requires 1 <= k <= |reference| + 1
    requires NoLineTerminator(reference[..k - 1])
    requires forall j :: 0 <= j < k ==> !IsBookEnd(reference, j)
    ensures BookFrom(reference, k).Some? ==>
      && IsBookEnd(reference, |BookFrom(reference, k).value|)
      && forall j :: 0 <= j < |BookFrom(reference, k).value| ==> !IsBookEnd(reference, j)
    ensures BookFrom(reference, k).None? ==> forall j :: 0 <= j <= |reference| ==> !IsBookEnd(reference, j)
    decreases |reference| + 1 - k
  {
    if k > |reference| {
    } else if IsLineTerminator(reference[k - 1]) {
      TerminatorEndsBook(reference, k);
    } else {
      CleanPrefixGrows(reference, k);
      if !IsChapterVerseSuffix(reference[k..]) {
        BookFromIsLazyMatch(reference, k + 1);
      }
    }
  }

  /** No book reaches past a line terminator. */
  lemma TerminatorEndsBook(reference: string, k: nat)
    requires 1 <= k <= |reference| && IsLineTerminator(reference[k - 1])
    ensures forall j :: k <= j <= |reference| ==> !IsBookEnd(reference, j)
  {
    forall j | k <= j <= |reference|
      ensures !NoLineTerminator(reference[..j])
    {
      assert reference[..j][k - 1] == reference[k - 1];
    }
  }

  /** A terminator-free prefix stays terminator-free when extended by a non-terminator. */
  lemma CleanPrefixGrows(reference: string, k: nat)
    requires 1 <= k <= |reference| && !IsLineTerminator(reference[k - 1])
    requires NoLineTerminator(reference[..k - 1])
    ensures NoLineTerminator(reference[..k])
  {
    assert reference[..k] == reference[..k - 1] + [reference[k - 1]];
  }

  /**
   * One text line: split at the first tab into reference and text, and keep
   * the line only when the reference yields a book.
   */
  function ParseLine(line: string): (r: Option<Verse>)
    ensures '\t' !in line ==> r.None?
    ensures r.Some? ==>
      && line == r.value.reference + ['\t'] + r.value.text
      && '\t' !in r.value.reference
      && BookOf(r.value.reference) == Some(r.value.book)
    ensures r.None? && '\t' in line ==> BookOf(line[..IndexOf(line, '\t').value]).None?
  {
    match IndexOf(line, '\t')
    case None => None
    case Some(t) =>
      var reference := line[..t];
      match BookOf(reference)
      case None => None
      case Some(b) =>
        assert line == reference + ['\t'] + line[t + 1..];
        Some(Verse(reference, line[t + 1..], b))
  }

  /** What the parser guarantees of every verse it emits. */
  predicate WellFormed(v: Verse) {
    && '\t' !in v.reference && '\n' !in v.reference && '\n' !in v.text
    && BookOf(v.reference) == Some(v.book)
  }

  /** The verses of the given lines, in line order. */
  function ParseLines(lines: seq<string>): (r: seq<Verse>)
    requires forall k :: 0 <= k < |lines| ==> '\n' !in lines[k]
    ensures |r| <= |lines|
    ensures forall k :: 0 <= k < |r| ==> WellFormed(r[k])
  {
    if |lines| == 0 then []
    else match ParseLine(lines[0])
      case None => ParseLines(lines[1..])
      case Some(v) => [v] + ParseLines(lines[1..])
  }

  /** `parseVerses` over already-read content: skip two header lines, parse the rest. */
  function ParseVerses(content: string): (r: seq<Verse>)
    ensures |r| <= |Split(content, '\n')| - 2 || r == []
    ensures forall k :: 0 <= k < |r| ==> WellFormed(r[k])
  {
    var lines := Split(content, '\n');
    ParseLines(if |lines| <= 2 then [] else lines[2..])
  }

  /** What a verse line looks like when written back out. */
  function Render(v: Verse): string {
    v.reference + ['\t'] + v.text
  }

  function RenderAll(vs: seq<Verse>): (lines: seq<string>)
    ensures |lines| == |vs|
    ensures forall k :: 0 <= k < |vs| ==> lines[k] == Render(vs[k])
  {
    if |vs| == 0 then [] else [Render(vs[0])] + RenderAll(vs[1..])
  }

  /** A scripture text: two header lines, then one line per verse. */
  function Document(header1: string, header2: string, vs: seq<Verse>): string {
    Join([header1, header2] + RenderAll(vs), '\n')
  }

  /** Parsing keeps line order: the verses of two runs of lines are concatenated. */
  lemma {:induction false} ParseLinesAppend(a: seq<string>, b: seq<string>)
    requires forall k :: 0 <= k < |a| ==> '\n' !in a[k]
    requires forall k :: 0 <= k < |b| ==> '\n' !in b[k]
    ensures ParseLines(a + b) == ParseLines(a) + ParseLines(b)
  {
    if |a| > 0 {
      assert (a + b)[0] == a[0];
      assert (a + b)[1..] == a[1..] + b;
      ParseLinesAppend(a[1..], b);
    } else {
      assert a + b == b;
    }
  }

  /** In a chapter:verse suffix, whitespace occurs only in the leading run. */
  lemma SuffixWhitespaceLeading(t: string, i: nat)
    requires IsChapterVerseSuffix(t)
    requires i < |t| && IsWhitespace(t[i])
    ensures i < CountWhile(t, IsWhitespace)
  {
    var w := CountWhile(t, IsWhitespace);
    var rest := t[w..];
    var d := CountWhile(rest, IsDigit);
    if i >= w {
      var c := rest[i - w];
      assert t[i] == c;
      if i - w > d {
        assert rest[d + 1..][i - w - d - 1] == c;
      }
      assert IsDigit(c) || c == ':';
      SuffixCharNotWhitespace(c);
    }
  }

  lemma SuffixCharNotWhitespace(c: char)
    requires IsDigit(c) || c == ':'
    ensures !IsWhitespace(c)
  {
  }

  /**
   * A reference built from a book name and a chapter:verse suffix gives back
   * that book, provided the name is non-empty, holds no line terminator and
   * does not end in whitespace (so `1 Samuel 3:10` gives `1 Samuel`).
   */
  lemma BookOfComposed(book: string, suffix: string)
    requires |book| >= 1 && NoLineTerminator(book)
    requires !IsWhitespace(book[|book| - 1])
    requires IsChapterVerseSuffix(suffix)
    ensures BookOf(book + suffix) == Some(book)
  {
    var reference := book + suffix;
    var m := |book|;
    assert reference[..m] == book;
    assert reference[m..] == suffix;
    assert IsBookEnd(reference, m);
    forall j | 1 <= j < m
      ensures !IsBookEnd(reference, j)
    {
      if IsChapterVerseSuffix(reference[j..]) {
        var t := reference[j..];
        assert t[m - 1 - j] == book[m - 1];
        assert t[m - j] == suffix[0];
        SuffixWhitespaceLeading(t, m - j);
      }
    }
    BookOfIsLazyMatch(reference);
    var r := BookOf(reference);
    assert r.Some?;
    assert |r.value| == m;
  }

  /** A verse line written out by Render parses back to the same verse. */
  lemma ParseRender(v: Verse)
    requires WellFormed(v)
    ensures ParseLine(Render(v)) == Some(v)
  {
    var line := Render(v);
    IndexOfAfterFree(v.reference, '\t', v.text);
    assert line[..|v.reference|] == v.reference;
    assert line[|v.reference| + 1..] == v.text;
  }

  /** A well-formed verse renders to a single line. */
  lemma RenderOneLine(v: Verse)
    requires WellFormed(v)
    ensures '\n' !in Render(v)
  {
    var line := Render(v);
    forall i | 0 <= i < |line|
      ensures line[i] != '\n'
    {
      if i < |v.reference| {
        assert line[i] == v.reference[i];
      } else if i > |v.reference| {
        assert line[i] == v.text[i - |v.reference| - 1];
      }
    }
  }

  lemma RenderAllLines(vs: seq<Verse>)
    requires forall k :: 0 <= k < |vs| ==> WellFormed(vs[k])
    ensures forall k :: 0 <= k < |vs| ==> '\n' !in RenderAll(vs)[k]
  {
    forall k | 0 <= k < |vs|
      ensures '\n' !in RenderAll(vs)[k]
    {
      RenderOneLine(vs[k]);
    }
  }

  /** Parsing a line that yields a verse in front of more lines. */
  lemma ParseLinesCons(line: string, v: Verse, rest: seq<string>)
    requires '\n' !in line && ParseLine(line) == Some(v)
    requires forall k :: 0 <= k < |rest| ==> '\n' !in rest[k]
    ensures ParseLines([line] + rest) == [v] + ParseLines(rest)
  {
    var lines := [line] + rest;
    assert lines[0] == line && lines[1..] == rest;
  }

  lemma {:induction false} ParseRenderAll(vs: seq<Verse>)
    requires forall k :: 0 <= k < |vs| ==> WellFormed(vs[k])
    ensures forall k :: 0 <= k < |vs| ==> '\n' !in RenderAll(vs)[k]
    ensures ParseLines(RenderAll(vs)) == vs
  {
    RenderAllLines(vs);
    if |vs| > 0 {
      var rest := RenderAll(vs[1..]);
      RenderAllLines(vs[1..]);
      ParseRender(vs[0]);
      RenderOneLine(vs[0]);
      ParseRenderAll(vs[1..]);
      assert RenderAll(vs) == [Render(vs[0])] + rest;
      ParseLinesCons(Render(vs[0]), vs[0], rest);
      assert [vs[0]] + vs[1..] == vs;
    }
  }

  /** Round trip: parsing a document of well-formed verses gives those verses back. */
  lemma ParseDocument(header1: string, header2: string, vs: seq<Verse>)
    requires '\n' !in header1 && '\n' !in header2
    requires forall k :: 0 <= k < |vs| ==> WellFormed(vs[k])
    ensures ParseVerses(Document(header1, header2, vs)) == vs
  {
    ParseRenderAll(vs);
    var lines := [header1, header2] + RenderAll(vs);
    SplitJoin(lines, '\n');
    assert lines[2..] == RenderAll(vs);
  }

  lemma SamuelExample()
    ensures BookOf("1 Samuel 3:10") == Some("1 Samuel")
  {
    SuffixFromParts(" 3:10", 1, 2);
    SamuelIsPlain();
    ReadComposed("1 Samuel", " 3:10", "1 Samuel 3:10");
  }

  lemma SamuelIsPlain()
    ensures NoLineTerminator("1 Samuel") && !IsWhitespace("1 Samuel"[7])
  {
  }

  /** `BookOfComposed` for a reference given whole. */
  lemma ReadComposed(book: string, suffix: string, reference: string)
    requires |book| >= 1 && NoLineTerminator(book) && !IsWhitespace(book[|book| - 1])
    requires IsChapterVerseSuffix(suffix) && reference == book + suffix
    ensures BookOf(reference) == Some(book)
  {
    BookOfComposed(book, suffix);
  }

  lemma SuffixFromParts(t: string, a: nat, b: nat)
    requires SuffixParts(t, a, b)
    ensures IsChapterVerseSuffix(t)
  {
    ChapterVerseSuffixParts(t);
  }
}
