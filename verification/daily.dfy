/**
 * `pickDaily`: a 31-multiplier string hash over the UTF-16 code units of a
 * date, kept in signed 32-bit range after every step, picks the verse of the
 * day.
 */
module Daily {
  import opened Wrappers
  import opened Verses

  const TwoTo31: int := 0x8000_0000
  const TwoTo32: int := 0x1_0000_0000

  /** `x | 0`: the signed 32-bit two's-complement value congruent to `x`. */
  function Wrap32(x: int): (r: int)
    ensures -TwoTo31 <= r < TwoTo31
    ensures (r - x) % TwoTo32 == 0
  {
    (x + TwoTo31) % TwoTo32 - TwoTo31
  }

  /** Two integers congruent modulo 2^32 wrap to the same value. */
  lemma Wrap32Congruent(x: int, y: int)
    requires (x - y) % TwoTo32 == 0
    ensures Wrap32(x) == Wrap32(y)
  {
    var q := (x - y) / TwoTo32;
    assert x + TwoTo31 == (y + TwoTo31) + q * TwoTo32;
    ModShift(y + TwoTo31, q);
  }

  lemma ModShift(a: int, q: int)
    ensures (a + q * TwoTo32) % TwoTo32 == a % TwoTo32
  {
  }

  /** The UTF-16 code units of a string, as `charCodeAt` reads them. */
  function CodeUnits(s: string): (r: seq<int>)
    ensures forall k :: 0 <= k < |r| ==> 0 <= r[k] < 0x1_0000
    ensures (forall k :: 0 <= k < |s| ==> (s[k] as int) < 0x1_0000) ==>
      |r| == |s| && forall k :: 0 <= k < |s| ==> r[k] == s[k] as int
  {
    if |s| == 0 then []
    else
      var c := s[0] as int;
      var units := if c < 0x1_0000 then [c] else [HighOf(c), LowOf(c)];
      units + CodeUnits(s[1..])
  }

  predicate IsHighSurrogate(u: int) { 0xD800 <= u < 0xDC00 }
  predicate IsLowSurrogate(u: int) { 0xDC00 <= u < 0xE000 }

  /** The code point a surrogate pair stands for. */
  function Combine(hi: int, lo: int): (c: int)
    requires IsHighSurrogate(hi) && IsLowSurrogate(lo)
    ensures 0x1_0000 <= c < 0x11_0000
  {
    0x1_0000 + (hi - 0xD800) * 0x400 + (lo - 0xDC00)
  }

  /** Reads code units back into characters, pairing each high surrogate with the low one after it. */
  function FromCodeUnits(units: seq<int>): Option<string>
    decreases |units|
  {
    if |units| == 0 then Some([])
    else
      var u := units[0];
      if IsHighSurrogate(u) && |units| >= 2 && IsLowSurrogate(units[1]) then
        match FromCodeUnits(units[2..])
        case None => None
        case Some(rest) => Some([Combine(u, units[1]) as char] + rest)
      else if 0 <= u < 0xD800 || 0xE000 <= u < 0x1_0000 then
        match FromCodeUnits(units[1..])
        case None => None
        case Some(rest) => Some([u as char] + rest)
      else None
  }

  /** The high and low surrogates of a supplementary code point. */
  function HighOf(c: int): int { 0xD800 + (c - 0x1_0000) / 0x400 }
  function LowOf(c: int): int { 0xDC00 + (c - 0x1_0000) % 0x400 }

  /** A supplementary code point splits into a high and a low surrogate that recombine to it. */
  lemma SurrogatePair(c: int)
    requires 0x1_0000 <= c < 0x11_0000
    ensures IsHighSurrogate(HighOf(c)) && IsLowSurrogate(LowOf(c))
    ensures Combine(HighOf(c), LowOf(c)) == c
  {
    var d := c - 0x1_0000;
    assert d == (d / 0x400) * 0x400 + d % 0x400;
  }

  /** Reading a surrogate pair in front of readable units. */
  lemma ReadPair(hi: int, lo: int, rest: seq<int>, tail: string)
    requires IsHighSurrogate(hi) && IsLowSurrogate(lo) && FromCodeUnits(rest) == Some(tail)
    ensures FromCodeUnits([hi, lo] + rest) == Some([Combine(hi, lo) as char] + tail)
  {
    var units := [hi, lo] + rest;
    assert units[0] == hi && units[1] == lo && units[2..] == rest;
  }

  /** Reading a unit that is not a surrogate in front of readable units. */
  lemma ReadSingle(u: int, rest: seq<int>, tail: string)
    requires 0 <= u < 0xD800 || 0xE000 <= u < 0x1_0000
    requires FromCodeUnits(rest) == Some(tail)
    ensures FromCodeUnits([u] + rest) == Some([u as char] + tail)
  {
    var units := [u] + rest;
    assert units[0] == u && units[1..] == rest;
  }

  /** Encoding a string as code units loses nothing: reading them back gives the string. */
  lemma {:induction false} CodeUnitsRoundTrip(s: string)
    ensures FromCodeUnits(CodeUnits(s)) == Some(s)
  {
    if |s| > 0 {
      var c := s[0] as int;
      var rest := CodeUnits(s[1..]);
      CodeUnitsRoundTrip(s[1..]);
      if c < 0x1_0000 {
        assert CodeUnits(s) == [c] + rest;
        ReadSingle(c, rest, s[1..]);
      } else {
        SurrogatePair(c);
        assert CodeUnits(s) == [HighOf(c), LowOf(c)] + rest;
        ReadPair(HighOf(c), LowOf(c), rest, s[1..]);
      }
      assert [s[0]] + s[1..] == s;
    }
  }

  /** The hash after folding in every unit of `units`, one at a time, left to right. */
  function Hash(units: seq<int>): (h: int)
    ensures -TwoTo31 <= h < TwoTo31
  {
    if |units| == 0 then 0
    else Wrap32(Hash(units[..|units| - 1]) * 31 + units[|units| - 1])
  }

  /** The same polynomial in unbounded integers: sum of `units[k] * 31^(n-1-k)`. */
  function Polynomial(units: seq<int>): int {
    if |units| == 0 then 0
    else Polynomial(units[..|units| - 1]) * 31 + units[|units| - 1]
  }

  /** Wrapping after every step is the same as wrapping the unbounded polynomial once. */
  lemma {:induction false} HashIsWrappedPolynomial(units: seq<int>)
    ensures Hash(units) == Wrap32(Polynomial(units))
  {
    if |units| > 0 {
      var init := units[..|units| - 1];
      var c := units[|units| - 1];
      HashIsWrappedPolynomial(init);
      var h := Hash(init);
      var p := Polynomial(init);
      var q := (h - p) / TwoTo32;
      assert h == p + q * TwoTo32;
      assert (h * 31 + c) - (p * 31 + c) == (q * 31) * TwoTo32;
      MultipleMod(q * 31);
      Wrap32Congruent(h * 31 + c, p * 31 + c);
    }
  }

  lemma MultipleMod(q: int)
    ensures (q * TwoTo32) % TwoTo32 == 0
  {
  }

  function Abs(x: int): nat {
    if x < 0 then -x else x
  }

  /** `Math.abs(hash) % verses.length`. */
  function DailyIndex(date: string, n: nat): (i: nat)
    requires n > 0
    ensures i < n
  {
    Abs(Hash(CodeUnits(date))) % n
  }

  /**
   * `pickDaily` with the date given. An empty collection has no verse of the
   * day (the source indexes with `NaN` and yields `undefined`).
   */
  method PickDaily(verses: seq<Verse>, date: string) returns (r: Option<Verse>)
    ensures r.None? <==> |verses| == 0
    ensures r.Some? ==> r.value == verses[DailyIndex(date, |verses|)]
  {
    var units := CodeUnits(date);
    var h := 0;
    for i := 0 to |units|
      invariant h == Hash(units[..i])
    {
      assert units[..i + 1][..i] == units[..i];
      h := Wrap32(h * 31 + units[i]);
    }
    assert units[..|units|] == units;
    if |verses| == 0 {
      return None;
    }
    var index := Abs(h) % |verses|;
    return Some(verses[index]);
  }

  /** The verse of the day is one of the verses. */
  lemma DailyPickInRange(verses: seq<Verse>, date: string)
    requires |verses| > 0
    ensures DailyIndex(date, |verses|) < |verses|
    ensures verses[DailyIndex(date, |verses|)] in verses
  {
  }

  /** A collection of one verse always yields that verse, whatever the date. */
  lemma DailySingleVerse(date: string)
    ensures DailyIndex(date, 1) == 0
  {
  }
}
