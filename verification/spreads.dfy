/**
 * `drawSpread`: one verse per label of a named spread, never the same
 * position twice while unused positions remain. The random draws are an
 * explicit sequence of candidate positions (`rolls`), consumed in order.
 */
module Spreads {
  import opened Wrappers
  import opened Seqs
  import opened Verses

  /** The named spreads and their labels, in order. */
  const Spreads: map<string, seq<string>> := map[
    "past-present-future" := ["Past", "Present", "Future"],
    "thesis-antithesis-synthesis" := ["Thesis", "Antithesis", "Synthesis"],
    "warning-counsel-promise" := ["Warning", "Counsel", "Promise"],
    "head-heart-hands" := ["Head", "Heart", "Hands"]
  ]

  /** A drawn card (`label` in the source; `label` is reserved in Dafny). `None` stands for the `undefined` an empty collection yields. */
  datatype SpreadResult = SpreadResult(caption: string, verse: Option<Verse>)

  /** Every spread has three labels. */
  lemma SpreadsHaveThreeLabels(name: string)
    requires name in Spreads
    ensures |Spreads[name]| == 3
  {
  }

  /**
   * A roll is what `Math.floor(Math.random() * n)` can return: a position
   * below `n`, or 0 when `n` is 0.
   */
  predicate ValidRolls(rolls: seq<nat>, n: nat) {
    forall k :: 0 <= k < |rolls| ==> rolls[k] < n || rolls[k] == 0
  }

  /** Every roll from `from` up to `to` was a used position, rolled while unused ones remained. */
  predicate Resampled(rolls: seq<nat>, from: nat, to: nat, used: set<nat>, n: nat)
    requires from <= to <= |rolls|
  {
    forall j :: from <= j < to ==> rolls[j] in used && |used| < n
  }

  /** A roll was taken again only while unused positions remained. */
  lemma ResampledSome(rolls: seq<nat>, from: nat, to: nat, used: set<nat>, n: nat)
    requires from <= to <= |rolls| && Resampled(rolls, from, to, used, n)
    ensures from < to ==> |used| < n
  {
    if from < to {
      assert rolls[from] in used;
    }
  }

  /**
   * The source's inner `do ... while`: take rolls from `next` on until one is
   * a position not in `used`, or until every position is used. `None` when
   * the rolls run out first; otherwise the position and the next unread roll.
   */
  method Roll(rolls: seq<nat>, next: nat, used: set<nat>, n: nat) returns (r: Option<(nat, nat)>)
    requires ValidRolls(rolls, n) && next <= |rolls|
    ensures r.Some? ==> next < r.value.1 <= |rolls|
    ensures r.Some? ==> r.value.0 < n || r.value.0 == 0
    ensures r.Some? ==> r.value.0 !in used || |used| >= n
    ensures next < |rolls| && (rolls[next] !in used || |used| >= n) ==> r == Some((rolls[next], next + 1))
    ensures r.Some? ==> r.value.0 == rolls[r.value.1 - 1] && Resampled(rolls, next, r.value.1 - 1, used, n)
    ensures r.None? ==> Resampled(rolls, next, |rolls|, used, n)
  {
    if next == |rolls| {
      return None;
    }
    var idx: nat := rolls[next];
    var cursor: nat := next + 1;
    while idx in used && |used| < n
      invariant next < cursor <= |rolls|
      invariant idx < n || idx == 0
      invariant rolls[next] !in used || |used| >= n ==> idx == rolls[next] && cursor == next + 1
      invariant idx == rolls[cursor - 1] && Resampled(rolls, next, cursor - 1, used, n)
      decreases |rolls| - cursor
    {
      if cursor == |rolls| {
        return None;
      }
      idx := rolls[cursor];
      cursor := cursor + 1;
    }
    return Some((idx, cursor));
  }

  /** The verse at a rolled position; an empty collection yields none. */
  function VerseAt(verses: seq<Verse>, idx: nat): Option<Verse> {
    if idx < |verses| then Some(verses[idx]) else None
  }

  /** The first `|results|` labels were drawn, each at the matching picked position. */
  predicate Drawn(verses: seq<Verse>, labels: seq<string>, results: seq<SpreadResult>, picked: seq<nat>) {
    && |results| == |picked| <= |labels|
    && forall i :: 0 <= i < |results| ==>
      && results[i].caption == labels[i]
      && (picked[i] < |verses| || picked[i] == 0)
      && results[i].verse == VerseAt(verses, picked[i])
  }

  lemma DrawnStep(verses: seq<Verse>, labels: seq<string>, results: seq<SpreadResult>, picked: seq<nat>, idx: nat)
    requires Drawn(verses, labels, results, picked) && |results| < |labels|
    requires idx < |verses| || idx == 0
    ensures Drawn(verses, labels, results + [SpreadResult(labels[|results|], VerseAt(verses, idx))], picked + [idx])
  {
  }

  /** A finished draw: a card per label, each holding the verse at its picked position. */
  lemma DrawnDone(verses: seq<Verse>, labels: seq<string>, results: seq<SpreadResult>, picked: seq<nat>)
    requires Drawn(verses, labels, results, picked) && |results| == |labels|
    ensures |results| == |picked| == |labels|
    ensures forall i :: 0 <= i < |labels| ==> results[i].caption == labels[i]
    ensures forall i :: 0 <= i < |picked| ==>
      if |verses| > 0 then picked[i] < |verses| && results[i].verse == Some(verses[picked[i]])
      else results[i].verse.None?
  {
  }

  /** Adding a position not yet used grows the used set by one and keeps it in step with `picked`. */
  lemma UsedStep(used: set<nat>, picked: seq<nat>, idx: nat)
    requires forall x :: x in used <==> x in picked
    requires idx !in used
    ensures forall x :: x in used + {idx} <==> x in picked + [idx]
    ensures |used + {idx}| == |used| + 1
  {
  }

  function Min(a: nat, b: nat): nat {
    if a <= b then a else b
  }

  /**
   * Rolls that settle a draw of `count` cards from `n` positions: one roll
   * per card, the first `min(count, n)` of them distinct. Each is then taken
   * as it comes: a fresh position while unused ones remain, and whatever
   * comes once every position is used (the source's resampling guard).
   */
  predicate Settles(rolls: seq<nat>, count: nat, n: nat) {
    count <= |rolls| && NoDuplicates(rolls[..Min(count, n)])
  }

  /**
   * The resampling guard at work: with one verse, or none, three rolls of 0
   * settle a three-card draw, so every label gets a card.
   */
  lemma SmallCollectionsSettle()
    ensures Settles([0, 0, 0], 3, 1) && Settles([0, 0, 0], 3, 0)
    ensures ValidRolls([0, 0, 0], 1) && ValidRolls([0, 0, 0], 0)
  {
    assert [0, 0, 0][..1] == [0];
  }

  /** Adding an element never shrinks a set. */
  lemma AddNoSmaller(s: set<nat>, x: nat)
    ensures |s + {x}| >= |s|
  {
    if x in s {
      assert s + {x} == s;
    }
  }

  /**
   * The distinct values among the first `k` rolls, in order of first
   * appearance: the positions a draw takes while unused positions remain.
   */
  function Fresh(rolls: seq<nat>, k: nat): (f: seq<nat>)
    requires k <= |rolls|
    ensures |f| <= k
  {
    if k == 0 then []
    else
      var prev := Fresh(rolls, k - 1);
      if rolls[k - 1] in prev then prev else prev + [rolls[k - 1]]
  }

  /** `m` is the length of the shortest prefix of the rolls holding `c` distinct values. */
  predicate FirstFull(rolls: seq<nat>, c: nat, m: nat) {
    m <= |rolls| && |Fresh(rolls, m)| >= c && forall j :: 0 <= j < m ==> |Fresh(rolls, j)| < c
  }

  /** The shortest prefix, no shorter than `from`, holding `c` distinct values, if any. */
  function FullFrom(rolls: seq<nat>, c: nat, from: nat): (r: Option<nat>)
    requires from <= |rolls|
    ensures r.Some? ==> from <= r.value <= |rolls| && |Fresh(rolls, r.value)| >= c
    ensures r.Some? ==> forall j :: from <= j < r.value ==> |Fresh(rolls, j)| < c
    ensures r.None? ==> forall j :: from <= j <= |rolls| ==> |Fresh(rolls, j)| < c
    decreases |rolls| - from
  {
    if |Fresh(rolls, from)| >= c then Some(from)
    else if from == |rolls| then None
    else FullFrom(rolls, c, from + 1)
  }

  /**
   * The positions a draw of `count` cards from `n` positions takes from
   * `rolls`: the first `min(count, n)` distinct rolls, in order of first
   * appearance (a used position is rolled again while unused ones remain),
   * then, once every position is used, the rolls that follow as they come.
   * `None` when the rolls run out first.
   */
  function Expected(rolls: seq<nat>, count: nat, n: nat): Option<seq<nat>> {
    var c := Min(count, n);
    match FullFrom(rolls, c, 0)
    case None => None
    case Some(s) =>
      if s + (count - c) <= |rolls| then Some(Fresh(rolls, s) + rolls[s..s + (count - c)]) else None
  }

  /** Rolls already among the distinct values add nothing. */
  lemma {:induction false} FreshSkip(rolls: seq<nat>, a: nat, b: nat)
    requires a <= b <= |rolls|
    requires forall j :: a <= j < b ==> rolls[j] in Fresh(rolls, a)
    ensures Fresh(rolls, b) == Fresh(rolls, a)
    decreases b - a
  {
    if b > a {
      FreshSkip(rolls, a, b - 1);
    }
  }

  /** Reading more rolls never loses a distinct value. */
  lemma {:induction false} FreshMonotone(rolls: seq<nat>, j: nat, k: nat)
    requires j <= k <= |rolls|
    ensures |Fresh(rolls, j)| <= |Fresh(rolls, k)|
    decreases k - j
  {
    if k > j {
      FreshMonotone(rolls, j, k - 1);
    }
  }

  /** The distinct values are distinct, and they are exactly the values rolled. */
  lemma {:induction false} FreshValues(rolls: seq<nat>, k: nat)
    requires k <= |rolls|
    ensures NoDuplicates(Fresh(rolls, k))
    ensures forall x :: x in Fresh(rolls, k) <==> x in rolls[..k]
  {
    if k > 0 {
      FreshValues(rolls, k - 1);
      assert rolls[..k] == rolls[..k - 1] + [rolls[k - 1]];
      var prev := Fresh(rolls, k - 1);
      if rolls[k - 1] !in prev {
        NoDuplicatesAppend(prev, rolls[k - 1]);
      }
    }
  }

  /** Rolls without repeats are their own distinct values. */
  lemma {:induction false} FreshOfDistinct(rolls: seq<nat>, k: nat, m: nat)
    requires k <= m <= |rolls| && NoDuplicates(rolls[..m])
    ensures Fresh(rolls, k) == rolls[..k]
  {
    if k > 0 {
      FreshOfDistinct(rolls, k - 1, m);
      forall j | 0 <= j < k - 1
        ensures rolls[j] != rolls[k - 1]
      {
        assert rolls[..m][j] == rolls[j] && rolls[..m][k - 1] == rolls[k - 1];
      }
      assert rolls[..k] == rolls[..k - 1] + [rolls[k - 1]];
    }
  }

  /** The search finds the shortest full prefix. */
  lemma FullFromFinds(rolls: seq<nat>, c: nat, m: nat)
    requires FirstFull(rolls, c, m)
    ensures FullFrom(rolls, c, 0) == Some(m)
  {
  }

  /** No prefix is full when all the rolls hold fewer than `c` distinct values. */
  lemma NeverFull(rolls: seq<nat>, c: nat)
    requires |Fresh(rolls, |rolls|)| < c
    ensures FullFrom(rolls, c, 0).None?
  {
    var r := FullFrom(rolls, c, 0);
    if r.Some? {
      FreshMonotone(rolls, r.value, |rolls|);
    }
  }

  /** A successful draw has one position per card. */
  lemma ExpectedLength(rolls: seq<nat>, count: nat, n: nat)
    requires Expected(rolls, count, n).Some?
    ensures |Expected(rolls, count, n).value| == count
  {
    var c := Min(count, n);
    var s := FullFrom(rolls, c, 0).value;
    if s > 0 {
      assert |Fresh(rolls, s - 1)| < c;
    }
  }

  /** With no more cards than positions, a draw never takes a position twice. */
  lemma ExpectedDistinct(rolls: seq<nat>, count: nat, n: nat)
    requires count <= n && Expected(rolls, count, n).Some?
    ensures NoDuplicates(Expected(rolls, count, n).value)
  {
    var s := FullFrom(rolls, count, 0).value;
    FreshValues(rolls, s);
    assert Expected(rolls, count, n).value == Fresh(rolls, s);
  }

  /** Settling rolls are drawn exactly as they come. */
  lemma ExpectedSettles(rolls: seq<nat>, count: nat, n: nat)
    requires Settles(rolls, count, n)
    ensures Expected(rolls, count, n) == Some(rolls[..count])
  {
    var c := Min(count, n);
    forall j | 0 <= j <= c
      ensures Fresh(rolls, j) == rolls[..j]
    {
      FreshOfDistinct(rolls, j, c);
    }
    FullFromFinds(rolls, c, c);
    assert rolls[..c] + rolls[c..count] == rolls[..count];
  }

  /** Three verses, rolls 0, 0, 1, 2: the repeated 0 is rolled again, and the draw is 0, 1, 2. */
  lemma ResampledRepeat()
    ensures Expected([0, 0, 1, 2], 3, 3) == Some([0, 1, 2])
  {
    var rolls: seq<nat> := [0, 0, 1, 2];
    assert Fresh(rolls, 1) == [0];
    assert Fresh(rolls, 2) == [0];
    assert Fresh(rolls, 3) == [0, 1];
    assert Fresh(rolls, 4) == [0, 1, 2];
    assert FirstFull(rolls, 3, 4);
    FullFromFinds(rolls, 3, 4);
    assert Min(3, 3) == 3 && rolls[4..4] == [];
    assert Expected(rolls, 3, 3) == Some(Fresh(rolls, 4) + rolls[4..4]);
    assert Fresh(rolls, 4) + rolls[4..4] == [0, 1, 2];
  }

  /**
   * Two verses, three labels, rolls 1, 1, 0, 1: the repeated 1 is rolled
   * again until 0 comes; with both positions used, the last 1 is taken as it comes.
   */
  lemma ResampledThenTaken()
    ensures Expected([1, 1, 0, 1], 3, 2) == Some([1, 0, 1])
  {
    var rolls: seq<nat> := [1, 1, 0, 1];
    assert Fresh(rolls, 1) == [1];
    assert Fresh(rolls, 2) == [1];
    assert Fresh(rolls, 3) == [1, 0];
    assert FirstFull(rolls, 2, 3);
    FullFromFinds(rolls, 2, 3);
    assert Min(3, 2) == 2 && rolls[3..4] == [1];
    assert Expected(rolls, 3, 2) == Some(Fresh(rolls, 3) + rolls[3..4]);
    assert Fresh(rolls, 3) + rolls[3..4] == [1, 0, 1];
  }

  /** Before every position a draw needs is used: the picks are the distinct rolls read so far. */
  predicate Early(rolls: seq<nat>, li: nat, next: nat, picked: seq<nat>, used: set<nat>) {
    next <= |rolls| && FirstFull(rolls, li, next) && picked == Fresh(rolls, next) && |used| == li
  }

  /** Once `c` positions are used: the rolls after the shortest full prefix are taken as they come. */
  predicate Late(rolls: seq<nat>, c: nat, s: nat, li: nat, next: nat, picked: seq<nat>, used: set<nat>) {
    && c <= li && FirstFull(rolls, c, s) && next == s + (li - c) && next <= |rolls|
    && picked == Fresh(rolls, s) + rolls[s..next] && |used| >= c
  }

  /** A fresh position, reached after rerolling used ones, extends the distinct picks. */
  lemma EarlyStep(rolls: seq<nat>, li: nat, next: nat, picked: seq<nat>, used: set<nat>, k: nat)
    requires Early(rolls, li, next, picked, used) && |picked| == li
    requires forall x :: x in used <==> x in picked
    requires next < k <= |rolls|
    requires forall j :: next <= j < k - 1 ==> rolls[j] in used
    requires rolls[k - 1] !in used
    ensures Early(rolls, li + 1, k, picked + [rolls[k - 1]], used + {rolls[k - 1]})
  {
    FreshSkip(rolls, next, k - 1);
    UsedStep(used, picked, rolls[k - 1]);
    forall j | 0 <= j < k
      ensures |Fresh(rolls, j)| < li + 1
    {
      FreshMonotone(rolls, j, k - 1);
    }
  }

  lemma EarlyLate(rolls: seq<nat>, c: nat, next: nat, picked: seq<nat>, used: set<nat>)
    requires Early(rolls, c, next, picked, used)
    ensures Late(rolls, c, next, c, next, picked, used)
  {
    assert picked + rolls[next..next] == picked;
  }

  /** Once enough positions are used, the next roll is taken as it comes. */
  lemma LateStep(rolls: seq<nat>, c: nat, s: nat, li: nat, next: nat, picked: seq<nat>, used: set<nat>)
    requires Late(rolls, c, s, li, next, picked, used) && next < |rolls|
    ensures Late(rolls, c, s, li + 1, next + 1, picked + [rolls[next]], used + {rolls[next]})
  {
    AddNoSmaller(used, rolls[next]);
    assert rolls[s..next] + [rolls[next]] == rolls[s..next + 1];
  }

  /** Running out of rolls before `c` positions are used leaves the draw unfinished. */
  lemma EarlyExhausted(rolls: seq<nat>, li: nat, next: nat, picked: seq<nat>, used: set<nat>, count: nat, n: nat)
    requires Early(rolls, li, next, picked, used) && |picked| == li && li < Min(count, n)
    requires forall x :: x in used <==> x in picked
    requires forall j :: next <= j < |rolls| ==> rolls[j] in used
    ensures Expected(rolls, count, n).None?
  {
    FreshSkip(rolls, next, |rolls|);
    NeverFull(rolls, Min(count, n));
  }

  /** Running out of rolls after `c` positions are used, with cards still to draw, leaves the draw unfinished. */
  lemma LateExhausted(rolls: seq<nat>, c: nat, s: nat, li: nat, next: nat, picked: seq<nat>, used: set<nat>, count: nat, n: nat)
    requires c == Min(count, n) && Late(rolls, c, s, li, next, picked, used) && li < count && next == |rolls|
    ensures Expected(rolls, count, n).None?
  {
    FullFromFinds(rolls, c, s);
  }

  /** Every card drawn: the picks are the expected ones. */
  lemma LateDone(rolls: seq<nat>, c: nat, s: nat, count: nat, next: nat, picked: seq<nat>, used: set<nat>, n: nat)
    requires c == Min(count, n) && Late(rolls, c, s, count, next, picked, used)
    ensures Expected(rolls, count, n) == Some(picked)
  {
    FullFromFinds(rolls, c, s);
  }

  /** The draw's progress after `li` cards: early or late, with `used` holding exactly the picks. */
  ghost predicate Progress(rolls: seq<nat>, c: nat, s: nat, li: nat, next: nat, picked: seq<nat>, used: set<nat>) {
    && |picked| == li && (forall x :: x in used <==> x in picked)
    && (li <= c ==> Early(rolls, li, next, picked, used))
    && (li >= c ==> Late(rolls, c, s, li, next, picked, used))
  }

  /** The draw starts early, or, when no position is needed, already late. */
  lemma ProgressStart(rolls: seq<nat>, c: nat)
    ensures Progress(rolls, c, 0, 0, 0, [], {})
  {
    if c == 0 {
      EarlyLate(rolls, 0, 0, [], {});
    }
  }

  /** One card drawn as `Roll` describes keeps the progress; `s'` is the shortest full prefix once it is reached. */
  lemma ProgressStep(rolls: seq<nat>, c: nat, s: nat, li: nat, next: nat, picked: seq<nat>, used: set<nat>, count: nat, n: nat, k: nat)
    returns (s': nat)
    requires c == Min(count, n) && li < count && Progress(rolls, c, s, li, next, picked, used)
    requires next < k <= |rolls| && Resampled(rolls, next, k - 1, used, n)
    requires rolls[k - 1] !in used || |used| >= n
    requires rolls[next] !in used || |used| >= n ==> k == next + 1
    ensures Progress(rolls, c, s', li + 1, k, picked + [rolls[k - 1]], used + {rolls[k - 1]})
  {
    var idx := rolls[k - 1];
    if li < c {
      EarlyStep(rolls, li, next, picked, used, k);
      s' := s;
      if li + 1 == c {
        EarlyLate(rolls, c, k, picked + [idx], used + {idx});
        s' := k;
      }
    } else {
      LateStep(rolls, c, s, li, next, picked, used);
      s' := s;
    }
  }

  /** Rolls that run out before the last card leave the draw unfinished. */
  lemma ProgressExhausted(rolls: seq<nat>, c: nat, s: nat, li: nat, next: nat, picked: seq<nat>, used: set<nat>, count: nat, n: nat)
    requires c == Min(count, n) && li < count && Progress(rolls, c, s, li, next, picked, used)
    requires Resampled(rolls, next, |rolls|, used, n)
    ensures Expected(rolls, count, n).None?
  {
    if li < c {
      EarlyExhausted(rolls, li, next, picked, used, count, n);
    } else {
      assert c == n;
      ResampledSome(rolls, next, |rolls|, used, n);
      LateExhausted(rolls, c, s, li, next, picked, used, count, n);
    }
  }

  /** What the exact draw gives in the two special cases: rolls that settle, and no more cards than positions. */
  lemma ExpectedCases(rolls: seq<nat>, count: nat, n: nat)
    ensures Settles(rolls, count, n) ==> Expected(rolls, count, n) == Some(rolls[..count])
    ensures count <= n && Expected(rolls, count, n).Some? ==> NoDuplicates(Expected(rolls, count, n).value)
  {
    if Settles(rolls, count, n) {
      ExpectedSettles(rolls, count, n);
    }
    if count <= n && Expected(rolls, count, n).Some? {
      ExpectedDistinct(rolls, count, n);
    }
  }

  /**
   * The positions for `count` cards from `n` positions, each rolled as `Roll`
   * describes: exactly `Expected`. The draw fails only when the rolls run
   * out first, which the source's unbounded random draws never do.
   */
  method DrawPositions(rolls: seq<nat>, count: nat, n: nat) returns (r: Option<seq<nat>>)
    requires ValidRolls(rolls, n)
    ensures r == Expected(rolls, count, n)
    ensures r.Some? ==> |r.value| == count && forall i :: 0 <= i < count ==> r.value[i] < n || r.value[i] == 0
  {
    var c := Min(count, n);
    var picked: seq<nat> := [];
    var used: set<nat> := {};
    var next: nat := 0;
    ghost var s: nat := 0;
    ProgressStart(rolls, c);
    for li := 0 to count
      invariant next <= |rolls|
      invariant Progress(rolls, c, s, li, next, picked, used)
      invariant forall i :: 0 <= i < li ==> picked[i] < n || picked[i] == 0
    {
      var roll := Roll(rolls, next, used, n);
      if roll.None? {
        ProgressExhausted(rolls, c, s, li, next, picked, used, count, n);
        return None;
      }
      s := ProgressStep(rolls, c, s, li, next, picked, used, count, n, roll.value.1);
      next := roll.value.1;
      picked := picked + [roll.value.0];
      used := used + {roll.value.0};
    }
    LateDone(rolls, c, s, count, next, picked, used, n);
    return Some(picked);
  }

  /**
   * One card per label, in label order, holding the verse at the position
   * `DrawPositions` rolled for it; `picked` are those positions.
   */
  method DrawCards(verses: seq<Verse>, labels: seq<string>, rolls: seq<nat>)
    returns (r: Option<seq<SpreadResult>>, picked: seq<nat>)
    requires ValidRolls(rolls, |verses|)
    ensures r.Some? ==> |r.value| == |picked| == |labels|
    ensures r.Some? ==> forall i :: 0 <= i < |labels| ==> r.value[i].caption == labels[i]
    ensures r.Some? ==> forall i :: 0 <= i < |picked| ==>
      if |verses| > 0 then picked[i] < |verses| && r.value[i].verse == Some(verses[picked[i]])
      else r.value[i].verse.None?
    ensures r.Some? <==> Expected(rolls, |labels|, |verses|).Some?
    ensures r.Some? ==> picked == Expected(rolls, |labels|, |verses|).value
    ensures r.Some? && |labels| <= |verses| ==> NoDuplicates(picked)
    ensures Settles(rolls, |labels|, |verses|) ==> r.Some? && picked == rolls[..|labels|]
  {
    ExpectedCases(rolls, |labels|, |verses|);
    var positions := DrawPositions(rolls, |labels|, |verses|);
    if positions.None? {
      return None, [];
    }
    picked := positions.value;
    var results: seq<SpreadResult> := [];
    for li := 0 to |labels|
      invariant Drawn(verses, labels, results, picked[..li])
      invariant |results| == li
    {
      DrawnStep(verses, labels, results, picked[..li], picked[li]);
      assert picked[..li] + [picked[li]] == picked[..li + 1];
      results := results + [SpreadResult(labels[li], VerseAt(verses, picked[li]))];
    }
    assert picked[..|labels|] == picked;
    DrawnDone(verses, labels, results, picked);
    return Some(results), picked;
  }

  /** `drawSpread`: an unknown spread draws nothing; a known one draws a card per label. */
  method DrawSpread(verses: seq<Verse>, spread: string, rolls: seq<nat>)
    returns (r: Option<seq<SpreadResult>>, picked: seq<nat>)
    requires ValidRolls(rolls, |verses|)
    ensures spread !in Spreads ==> r == Some([]) && picked == []
    ensures r.Some? && spread in Spreads ==>
      && |r.value| == |picked| == |Spreads[spread]|
      && (forall i :: 0 <= i < |r.value| ==> r.value[i].caption == Spreads[spread][i])
    ensures r.Some? && spread in Spreads ==> forall i :: 0 <= i < |picked| ==>
      if |verses| > 0 then picked[i] < |verses| && r.value[i].verse == Some(verses[picked[i]])
      else r.value[i].verse.None?
    ensures spread in Spreads ==> (r.Some? <==> Expected(rolls, |Spreads[spread]|, |verses|).Some?)
    ensures r.Some? && spread in Spreads ==> picked == Expected(rolls, |Spreads[spread]|, |verses|).value
    ensures r.Some? && spread in Spreads && |Spreads[spread]| <= |verses| ==> NoDuplicates(picked)
    ensures spread in Spreads && Settles(rolls, |Spreads[spread]|, |verses|) ==> r.Some? && picked == rolls[..|Spreads[spread]|]
  {
    if spread !in Spreads {
      return Some([]), [];
    }
    r, picked := DrawCards(verses, Spreads[spread], rolls);
  }
}
