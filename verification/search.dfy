/**
 * `searchVerses`: the keyword is escaped so that a regular expression reads
 * it literally, then matched case-insensitively between two word boundaries
 * (`\b` ... `\b`, flag `i`, no unicode flag).
 */
module Search {
  import opened Wrappers
  import opened Text
  import opened Seqs
  import opened Verses

  /** The characters the escaping step prefixes with a backslash: `. * + ? ^ $ { } ( ) | [ ] \`. */
  predicate IsMeta(c: char) {
    || c == '.' || c == '*' || c == '+' || c == '?' || c == '^' || c == '$'
    || c == '{' || c == '}' || c == '(' || c == ')' || c == '|' || c == '['
    || c == ']' || c == '\\'
  }

  /** The replacement `/[.*+?^${}()|[\]\\]/g` → `"\\$&"`. */
  function Escape(keyword: string): (r: string)
    ensures |r| >= |keyword|
    ensures (forall i :: 0 <= i < |keyword| ==> !IsMeta(keyword[i])) ==> r == keyword
  {
    if |keyword| == 0 then []
    else (if IsMeta(keyword[0]) then ['\\', keyword[0]] else [keyword[0]]) + Escape(keyword[1..])
  }

  /**
   * The text a pattern matches when it is made only of literal atoms: a
   * character that is not a metacharacter, or a backslash followed by a
   * metacharacter, which stands for that character. Anything else (an
   * unescaped metacharacter, a backslash before anything else or at the end)
   * is not a literal pattern.
   */
  function ReadLiteral(pattern: string): (r: Option<string>)
    decreases |pattern|
  {
    if |pattern| == 0 then Some([])
    else if pattern[0] == '\\' then
      if |pattern| >= 2 && IsMeta(pattern[1]) then
        match ReadLiteral(pattern[2..])
        case None => None
        case Some(rest) => Some([pattern[1]] + rest)
      else None
    else if IsMeta(pattern[0]) then None
    else
      match ReadLiteral(pattern[1..])
      case None => None
      case Some(rest) => Some([pattern[0]] + rest)
  }

  /** An escaped keyword is a literal pattern, and it matches exactly the keyword. */
  lemma {:induction false} ReadEscape(keyword: string)
    ensures ReadLiteral(Escape(keyword)) == Some(keyword)
    decreases |keyword|
  {
    if |keyword| > 0 {
      var c := keyword[0];
      var rest := Escape(keyword[1..]);
      ReadEscape(keyword[1..]);
      if IsMeta(c) {
        var p := ['\\', c] + rest;
        assert Escape(keyword) == p;
        assert p[0] == '\\' && p[1] == c && p[2..] == rest;
      } else {
        var p := [c] + rest;
        assert Escape(keyword) == p;
        assert p[0] == c && p[1..] == rest;
      }
      assert [c] + keyword[1..] == keyword;
    }
  }

  /** Whether position `p` of `t` holds a word character; outside `t` it does not. */
  predicate IsWordAt(t: string, p: int) {
    0 <= p < |t| && IsWordChar(t[p])
  }

  /** `\b` at position `p`: a word character on exactly one side. */
  predicate Boundary(t: string, p: int) {
    IsWordAt(t, p - 1) != IsWordAt(t, p)
  }

  /** The literal `k` occurs at `p` of `t`, ignoring ASCII case. */
  predicate MatchesAt(t: string, k: string, p: nat) {
    p + |k| <= |t| && Lower(t[p..p + |k|]) == Lower(k)
  }

  /** `\bk\b` matches at `p`. */
  predicate WholeWordAt(t: string, k: string, p: nat) {
    MatchesAt(t, k, p) && Boundary(t, p) && Boundary(t, p + |k|)
  }

  ghost predicate ContainsWholeWord(t: string, k: string) {
    exists p: nat :: WholeWordAt(t, k, p)
  }

  /** The leftmost position at or after `from` where `\bk\b` matches. */
  function FindWholeWord(t: string, k: string, from: nat): (r: Option<nat>)
    ensures r.Some? ==> from <= r.value && WholeWordAt(t, k, r.value)
    ensures r.Some? ==> forall q: nat :: from <= q < r.value ==> !WholeWordAt(t, k, q)
    ensures r.None? ==> forall q: nat :: from <= q ==> !WholeWordAt(t, k, q)
    decreases |t| - from
  {
    if from + |k| > |t| then None
    else if WholeWordAt(t, k, from) then Some(from)
    else FindWholeWord(t, k, from + 1)
  }

  /** `RegExp.prototype.test` for the pattern `\bk\b` with the `i` flag, `k` literal. */
  function Matches(t: string, k: string): bool {
    FindWholeWord(t, k, 0).Some?
  }

  /** The search succeeds exactly when the keyword occurs somewhere as a whole word. */
  lemma MatchesIff(t: string, k: string)
    ensures Matches(t, k) <==> ContainsWholeWord(t, k)
  {
    var r := FindWholeWord(t, k, 0);
    if r.Some? {
      assert WholeWordAt(t, k, r.value);
    }
  }

  /** `searchVerses`. */
  function SearchVerses(verses: seq<Verse>, keyword: string): (r: seq<Verse>)
    ensures |r| <= |verses|
    ensures forall v :: v in r ==> v in verses
  {
    ReadEscape(keyword);
    var literal := ReadLiteral(Escape(keyword)).value;
    Filter(verses, (v: Verse) => Matches(v.text, literal))
  }

  /**
   * A verse is kept exactly when it is in the input and its text contains the
   * keyword itself, metacharacters and all, as a whole word.
   */
  lemma SearchKeeps(verses: seq<Verse>, keyword: string, v: Verse)
    ensures v in SearchVerses(verses, keyword) <==> v in verses && ContainsWholeWord(v.text, keyword)
  {
    ReadEscape(keyword);
    MatchesIff(v.text, keyword);
  }

  /** The kept verses are the input verses at strictly increasing positions. */
  lemma SearchIsSubsequence(verses: seq<Verse>, keyword: string)
    ensures var r := SearchVerses(verses, keyword);
      var idx := Kept(verses, (v: Verse) => Matches(v.text, keyword));
      && |r| == |idx|
      && (forall k :: 0 <= k < |r| ==> r[k] == verses[idx[k]])
  {
    ReadEscape(keyword);
    FilterIsSubsequence(verses, (v: Verse) => Matches(v.text, keyword));
  }

  /** Characters equal up to ASCII case are both word characters or both not. */
  lemma SameWordness(c: char, d: char)
    requires LowerChar(c) == LowerChar(d)
    ensures IsWordChar(c) == IsWordChar(d)
  {
  }

  /** Keywords equal up to ASCII case match at the same places. */
  lemma WholeWordIgnoresCase(t: string, k1: string, k2: string, p: nat)
    requires Lower(k1) == Lower(k2)
    ensures WholeWordAt(t, k1, p) == WholeWordAt(t, k2, p)
  {
    assert |k1| == |Lower(k1)| == |Lower(k2)| == |k2|;
  }

  /** Keywords equal up to ASCII case find the same verses. */
  lemma SearchIgnoresCase(verses: seq<Verse>, k1: string, k2: string)
    requires Lower(k1) == Lower(k2)
    ensures SearchVerses(verses, k1) == SearchVerses(verses, k2)
  {
    ReadEscape(k1);
    ReadEscape(k2);
    forall i | 0 <= i < |verses|
      ensures Matches(verses[i].text, k1) == Matches(verses[i].text, k2)
    {
      var t := verses[i].text;
      forall p: nat ensures WholeWordAt(t, k1, p) == WholeWordAt(t, k2, p) {
        WholeWordIgnoresCase(t, k1, k2, p);
      }
      MatchesIff(t, k1);
      MatchesIff(t, k2);
    }
    FilterCongruent(verses, (v: Verse) => Matches(v.text, k1), (v: Verse) => Matches(v.text, k2));
  }

  /**
   * A keyword ending in a word character does not match where the text
   * continues with a word character: "begin" is not found inside "beginning".
   */
  lemma WordContinuationBlocks(t: string, k: string, p: nat)
    requires |k| > 0 && IsWordChar(k[|k| - 1])
    requires p + |k| < |t| && IsWordChar(t[p + |k|])
    ensures !WholeWordAt(t, k, p)
  {
    if MatchesAt(t, k, p) {
      var j := p + |k| - 1;
      assert Lower(t[p..p + |k|])[|k| - 1] == LowerChar(t[j]);
      SameWordness(t[j], k[|k| - 1]);
    }
  }

  /**
   * A keyword starting with a non-word character, such as "[the]", matches
   * only right after a word character, since `\b` needs one on one side.
   */
  lemma NonWordStartNeedsWordBefore(t: string, k: string, p: nat)
    requires |k| > 0 && !IsWordChar(k[0])
    requires WholeWordAt(t, k, p)
    ensures p > 0 && IsWordChar(t[p - 1])
  {
    assert Lower(t[p..p + |k|])[0] == LowerChar(t[p]);
    SameWordness(t[p], k[0]);
  }

  /** Symmetrically, a keyword ending in a non-word character matches only right before a word character. */
  lemma NonWordEndNeedsWordAfter(t: string, k: string, p: nat)
    requires |k| > 0 && !IsWordChar(k[|k| - 1])
    requires WholeWordAt(t, k, p)
    ensures p + |k| < |t| && IsWordChar(t[p + |k|])
  {
    var j := p + |k| - 1;
    assert Lower(t[p..p + |k|])[|k| - 1] == LowerChar(t[j]);
    SameWordness(t[j], k[|k| - 1]);
  }

  /** "begin" is not a whole word of "beginning": the text goes on with a word character. */
  lemma BeginIsNotBeginning(t: string, k: string)
    requires t == "beginning" && k == "begin"
    ensures !ContainsWholeWord(t, k)
  {
    forall p: nat ensures !WholeWordAt(t, k, p) {
      if p == 0 {
        WordContinuationBlocks(t, k, 0);
      } else if p + |k| <= |t| {
        assert Lower(t[p..p + |k|])[0] == LowerChar(t[p]) != LowerChar(k[0]);
      }
    }
  }

  /** Case is ignored: "BEGINNING" is a whole word of "In the beginning". */
  lemma BeginningFoundIgnoringCase(t: string, k: string)
    requires t == "In the beginning" && k == "BEGINNING"
    ensures ContainsWholeWord(t, k)
  {
    assert t[7..16] == "beginning";
    assert Lower("beginning") == Lower(k);
    assert WholeWordAt(t, k, 7);
  }
}
