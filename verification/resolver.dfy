/**
 * Resolution of a filter expression to a set of canonical book names, by a
 * fixed cascade: a cluster name, then a comma-separated list (all or
 * nothing), then a canonical-order range split at the first hyphen that
 * works; anything else is unresolved.
 *
 * The list and range rules are written over an arbitrary ordered list of
 * book names `names`; the resolver proper instantiates it with `AllBooks`.
 */
module Resolver {
  import opened Wrappers
  import opened Text
  import opened Canon
  import opened Seqs

  /**
   * `allLower.indexOf(key)`: the first position at or after `from` whose
   * lower-cased name equals `key`.
   */
  function IndexFrom(names: seq<string>, key: string, from: nat): (r: Option<nat>)
    requires from <= |names|
    ensures r.Some? ==> from <= r.value < |names| && Lower(names[r.value]) == key
    ensures r.Some? ==> forall j :: from <= j < r.value ==> Lower(names[j]) != key
    ensures r.None? ==> forall j :: from <= j < |names| ==> Lower(names[j]) != key
    decreases |names| - from
  {
    if from == |names| then None
    else if Lower(names[from]) == key then Some(from)
    else IndexFrom(names, key, from + 1)
  }

  /** The position of the book a user-typed token names: trimmed, compared ignoring case. */
  function Lookup(names: seq<string>, token: string): (r: Option<nat>)
    ensures r.Some? ==> r.value < |names| && Lower(names[r.value]) == Lower(Trim(token))
    ensures r.Some? ==> forall j :: 0 <= j < r.value ==> Lower(names[j]) != Lower(Trim(token))
    ensures r.None? ==> forall j :: 0 <= j < |names| ==> Lower(names[j]) != Lower(Trim(token))
  {
    IndexFrom(names, Lower(Trim(token)), 0)
  }

  /** Whether token `k` names book `b`. */
  predicate Names(names: seq<string>, tokens: seq<string>, k: int, b: string) {
    0 <= k < |tokens| && Lookup(names, tokens[k]).Some? && names[Lookup(names, tokens[k]).value] == b
  }

  /** Whether some token names book `b`. */
  predicate SomeTokenNames(names: seq<string>, tokens: seq<string>, b: string) {
    exists k :: 0 <= k < |tokens| && Names(names, tokens, k, b)
  }

  /**
   * The comma rule: every token must name a book; the result is the set of
   * the names they stand for, duplicates collapsed.
   */
  function ResolveList(names: seq<string>, tokens: seq<string>): (r: Option<set<string>>)
    ensures r.None? <==> exists k :: 0 <= k < |tokens| && Lookup(names, tokens[k]).None?
  {
    if |tokens| == 0 then Some({})
    else match Lookup(names, tokens[0])
      case None => None
      case Some(i) =>
        match ResolveList(names, tokens[1..])
        case None =>
          assert forall k :: 1 <= k < |tokens| ==> tokens[k] == tokens[1..][k - 1];
          None
        case Some(rest) => Some({names[i]} + rest)
  }

  /** A resolved list holds exactly the books its tokens name. */
  lemma {:induction false} ResolveListContents(names: seq<string>, tokens: seq<string>, b: string)
    requires ResolveList(names, tokens).Some?
    ensures b in ResolveList(names, tokens).value <==> SomeTokenNames(names, tokens, b)
    decreases |tokens|
  {
    if |tokens| > 0 {
      var tail := tokens[1..];
      var i := Lookup(names, tokens[0]).value;
      var rest := ResolveList(names, tail).value;
      assert ResolveList(names, tokens).value == {names[i]} + rest;
      ResolveListContents(names, tail, b);
      assert Names(names, tokens, 0, names[i]);
      if b in rest {
        var k :| 0 <= k < |tail| && Names(names, tail, k, b);
        assert tail[k] == tokens[k + 1];
        assert Names(names, tokens, k + 1, b);
      }
      if SomeTokenNames(names, tokens, b) {
        var k :| 0 <= k < |tokens| && Names(names, tokens, k, b);
        if k > 0 {
          assert tail[k - 1] == tokens[k];
          assert Names(names, tail, k - 1, b);
        }
      }
    }
  }

  /**
   * The positions named on either side of the hyphen at `i`, when both sides
   * name books and the first does not come after the second.
   */
  function RangeBounds(names: seq<string>, filter: string, i: nat): (r: Option<(nat, nat)>)
    requires i < |filter|
    ensures r.Some? ==> r.value.0 <= r.value.1 < |names|
  {
    match (Lookup(names, filter[..i]), Lookup(names, filter[i + 1..]))
    case (Some(s), Some(e)) => if s <= e then Some((s, e)) else None
    case _ => None
  }

  /** Whether position `i` is a hyphen at which the filter reads as a valid range. */
  predicate IsRangeSplit(names: seq<string>, filter: string, i: nat) {
    i < |filter| && filter[i] == '-' && RangeBounds(names, filter, i).Some?
  }

  /** The first position, scanning left to right, at which the filter reads as a range. */
  function FirstRangeSplit(names: seq<string>, filter: string): (r: Option<nat>)
    ensures r.Some? ==> IsRangeSplit(names, filter, r.value)
    ensures r.Some? ==> forall j :: 0 <= j < r.value ==> !IsRangeSplit(names, filter, j)
    ensures r.None? ==> forall j :: 0 <= j < |filter| ==> !IsRangeSplit(names, filter, j)
  {
    var p := (i: nat) => IsRangeSplit(names, filter, i);
    var r := FirstWhere(p, 0, |filter|);
    assert forall j: nat :: p(j) == IsRangeSplit(names, filter, j);
    r
  }

  /** The books from position `s` through `e` inclusive. */
  function Span(names: seq<string>, s: nat, e: nat): (r: set<string>)
    requires s <= e < |names|
    ensures forall b :: b in r <==> exists j :: s <= j <= e && names[j] == b
  {
    set j | s <= j <= e :: names[j]
  }

  /** The range rule: the span at the first hyphen that reads as a range. */
  function ResolveRange(names: seq<string>, filter: string): (r: Option<set<string>>)
  {
    match FirstRangeSplit(names, filter)
    case None => None
    case Some(i) =>
      var (s, e) := RangeBounds(names, filter, i).value;
      Some(Span(names, s, e))
  }

  /**
   * The cascade over a catalogue of ordered book names and named clusters;
   * `None` stands for the source's `null`.
   */
  function ResolveIn(names: seq<string>, clusters: map<string, seq<string>>, filter: string): (r: Option<set<string>>)
  {
    var key := Lower(filter);
    if key in clusters then Some(set b | b in clusters[key])
    else if ',' in filter then ResolveList(names, Split(filter, ','))
    else if '-' in filter then ResolveRange(names, filter)
    else None
  }

  /** `resolveBookNames`: the cascade over the canon and its clusters. */
  function ResolveBookNames(filter: string): Option<set<string>>
  {
    ResolveIn(AllBooks, Clusters, filter)
  }

  /** A cluster name (in any case) resolves to exactly that cluster's books. */
  lemma ClusterRule(names: seq<string>, clusters: map<string, seq<string>>, filter: string, b: string)
    requires Lower(filter) in clusters
    ensures ResolveIn(names, clusters, filter).Some?
    ensures b in ResolveIn(names, clusters, filter).value <==> b in clusters[Lower(filter)]
  {
  }

  /**
   * A filter with a comma that is not a cluster name is decided by the comma
   * rule alone, on its comma-separated tokens (see
   * `ResolveList` and `ResolveListContents`).
   */
  lemma CommaRule(names: seq<string>, clusters: map<string, seq<string>>, filter: string)
    requires Lower(filter) !in clusters && ',' in filter
    ensures ResolveIn(names, clusters, filter) == ResolveList(names, Split(filter, ','))
  {
  }

  /** The first and last positions of the range read at a valid split. */
  function RangeStart(names: seq<string>, filter: string, i: nat): nat
    requires IsRangeSplit(names, filter, i)
  {
    RangeBounds(names, filter, i).value.0
  }

  function RangeEnd(names: seq<string>, filter: string, i: nat): nat
    requires IsRangeSplit(names, filter, i)
  {
    RangeBounds(names, filter, i).value.1
  }

  /**
   * A filter with a hyphen but no comma, not a cluster name, is decided by
   * the range rule alone (see `RangeReading`).
   */
  lemma RangeDispatch(names: seq<string>, clusters: map<string, seq<string>>, filter: string)
    requires Lower(filter) !in clusters && ',' !in filter && '-' in filter
    ensures ResolveIn(names, clusters, filter) == ResolveRange(names, filter)
  {
  }

  /**
   * The range rule finds a range exactly when some hyphen splits the filter
   * into two book names in canonical order, and then, at the leftmost such
   * hyphen, yields every book from the first through the second.
   */
  lemma RangeReading(names: seq<string>, filter: string, b: string)
    ensures ResolveRange(names, filter).Some? <==> exists i: nat :: IsRangeSplit(names, filter, i)
    ensures ResolveRange(names, filter).Some? ==> exists i: nat ::
      && IsRangeSplit(names, filter, i)
      && (forall j :: 0 <= j < i ==> !IsRangeSplit(names, filter, j))
      && (b in ResolveRange(names, filter).value <==>
          exists j :: RangeStart(names, filter, i) <= j <= RangeEnd(names, filter, i) && names[j] == b)
  {
    match FirstRangeSplit(names, filter)
    case None =>
      forall i: nat
        ensures !IsRangeSplit(names, filter, i)
      {
        if i < |filter| {
          assert !IsRangeSplit(names, filter, i);
        }
      }
    case Some(i) =>
      var r := ResolveRange(names, filter);
      assert r == Some(Span(names, RangeStart(names, filter, i), RangeEnd(names, filter, i)));
      assert IsRangeSplit(names, filter, i);
  }

  /** A filter with neither a cluster name, a comma nor a hyphen is unresolved. */
  lemma OtherwiseUnresolved(names: seq<string>, clusters: map<string, seq<string>>, filter: string)
    requires Lower(filter) !in clusters && ',' !in filter && '-' !in filter
    ensures ResolveIn(names, clusters, filter).None?
  {
  }

  /**
   * Whatever the cascade returns is a set of catalogue names, provided every
   * cluster lists only catalogue names.
   */
  lemma ResolvedWithin(names: seq<string>, clusters: map<string, seq<string>>, filter: string, b: string)
    requires forall k, c :: k in clusters && c in clusters[k] ==> c in names
    requires ResolveIn(names, clusters, filter).Some? && b in ResolveIn(names, clusters, filter).value
    ensures b in names
  {
    if Lower(filter) in clusters {
    } else if ',' in filter {
      ResolveListContents(names, Split(filter, ','), b);
      var k :| 0 <= k < |Split(filter, ',')| && Names(names, Split(filter, ','), k, b);
    } else {
      var i := FirstRangeSplit(names, filter).value;
      assert exists j :: RangeStart(names, filter, i) <= j <= RangeEnd(names, filter, i) && names[j] == b;
    }
  }

  /** Whatever the resolver returns is a set of canonical book names. */
  lemma ResolvedWithinCanon(filter: string, b: string)
    requires ResolveBookNames(filter).Some? && b in ResolveBookNames(filter).value
    ensures b in AllBooks
  {
    ClustersWithinCanon();
    ResolvedWithin(AllBooks, Clusters, filter, b);
  }

  /**
   * A token that is exactly a listed name, with no surrounding whitespace,
   * finds that name's position when no earlier name equals it up to case.
   */
  lemma LookupListed(names: seq<string>, i: nat, token: string)
    requires i < |names| && token == names[i] && Trim(token) == token
    requires forall j :: 0 <= j < i ==> Lower(names[j]) != Lower(names[i])
    ensures Lookup(names, token) == Some(i)
  {
    assert Lower(names[i]) == Lower(Trim(token));
  }

  /**
   * A filter of two names joined by one hyphen, neither containing a hyphen:
   * the range rule reads it as a range exactly when both names are known
   * and in canonical order.
   */
  lemma RangeOfTwoNames(names: seq<string>, first: string, last: string)
    requires '-' !in first && '-' !in last
    ensures var filter := first + "-" + last;
      var s := Lookup(names, first);
      var e := Lookup(names, last);
      ResolveRange(names, filter) ==
        if s.Some? && e.Some? && s.value <= e.value then Some(Span(names, s.value, e.value)) else None
  {
    var filter := first + "-" + last;
    var i := |first|;
    assert filter[..i] == first;
    assert filter[i + 1..] == last;
    assert filter[i] == '-';
    forall j | 0 <= j < |filter| && j != i
      ensures filter[j] != '-'
    {
      if j < i {
        assert filter[j] == first[j];
      } else {
        assert filter[j] == last[j - i - 1];
      }
    }
    var s := Lookup(names, first);
    var e := Lookup(names, last);
    assert RangeBounds(names, filter, i) ==
      if s.Some? && e.Some? && s.value <= e.value then Some((s.value, e.value)) else None;
    match FirstRangeSplit(names, filter)
    case None =>
      assert !IsRangeSplit(names, filter, i);
    case Some(k) =>
      assert k == i;
  }
}
