/**
 * Concrete resolutions over the real canon: a forward range, the same range
 * reversed, and a two-name list.
 */
module ResolverExamples {
  import opened Wrappers
  import opened Text
  import opened Canon
  import opened Resolver

  /** The canon opens with the five books of the Torah. */
  lemma CanonOpensWithTorah()
    ensures AllBooks[..5] == Torah
  {
    assert OldTestament[..5] == Torah;
  }

  /** A name without surrounding whitespace trims to itself. */
  lemma TrimmedName(name: string)
    requires |name| > 0 && !IsWhitespace(name[0]) && !IsWhitespace(name[|name| - 1])
    ensures Trim(name) == name
  {
    TrimPadded([], name, []);
    assert [] + name + [] == name;
  }

  lemma GenesisIsFirst()
    ensures Lookup(AllBooks, "Genesis") == Some(0)
  {
    CanonOpensWithTorah();
    TrimmedName("Genesis");
    LookupListed(AllBooks, 0, "Genesis");
  }

  lemma ExodusIsSecond()
    ensures Lookup(AllBooks, "Exodus") == Some(1)
  {
    CanonOpensWithTorah();
    TrimmedName("Exodus");
    assert |Lower(AllBooks[0])| != |Lower(AllBooks[1])|;
    LookupListed(AllBooks, 1, "Exodus");
  }

  lemma DeuteronomyIsFifth()
    ensures Lookup(AllBooks, "Deuteronomy") == Some(4)
  {
    CanonOpensWithTorah();
    TrimmedName("Deuteronomy");
    assert forall j :: 0 <= j < 4 ==> |Lower(AllBooks[j])| != |Lower(AllBooks[4])|;
    LookupListed(AllBooks, 4, "Deuteronomy");
  }

  /** No cluster name contains a hyphen or a comma. */
  lemma ClusterNamesPlain()
    ensures forall k :: k in Clusters ==> '-' !in k && ',' !in k
  {
  }

  /**
   * Two known names joined by a hyphen, neither containing a comma or a
   * hyphen, over a cluster table without hyphenated names: the range rule
   * decides.
   */
  lemma TwoNameRange(names: seq<string>, clusters: map<string, seq<string>>, first: string, last: string, s: nat, e: nat)
    requires forall k :: k in clusters ==> '-' !in k
    requires '-' !in first && '-' !in last && ',' !in first && ',' !in last
    requires Lookup(names, first) == Some(s) && Lookup(names, last) == Some(e)
    ensures ResolveIn(names, clusters, first + "-" + last) == if s <= e then Some(Span(names, s, e)) else None
  {
    var filter := first + "-" + last;
    assert filter[|first|] == '-';
    assert ',' !in filter by {
      assert forall j :: 0 <= j < |filter| ==>
        filter[j] == (if j < |first| then first[j] else if j == |first| then '-' else last[j - |first| - 1]);
    }
    assert Lower(filter)[|first|] == '-';
    RangeOfTwoNames(names, first, last);
  }

  /** Two comma-free tokens joined by a comma split back into the two. */
  lemma SplitTwo(first: string, second: string)
    requires ',' !in first && ',' !in second
    ensures Split(first + "," + second, ',') == [first, second]
  {
    var parts := [first, second];
    assert parts[1..] == [second];
    assert Join(parts, ',') == first + "," + second;
    SplitJoin(parts, ',');
  }

  /** A list of two known tokens resolves to the set of both names. */
  lemma ListOfTwo(names: seq<string>, first: string, second: string, s: nat, e: nat)
    requires Lookup(names, first) == Some(s) && Lookup(names, second) == Some(e)
    ensures ResolveList(names, [first, second]) == Some({names[s], names[e]})
  {
    var one := [second];
    assert one[0] == second && one[1..] == [];
    assert ResolveList(names, []) == Some({});
    assert {names[e]} + {} == {names[e]};
    assert ResolveList(names, one) == Some({names[e]});
    var two := [first, second];
    assert two[0] == first && two[1..] == one;
    assert {names[s]} + {names[e]} == {names[s], names[e]};
  }

  /**
   * Two known comma-free names joined by a comma, over a cluster table
   * without names containing a comma, resolve to the set of both.
   */
  lemma TwoNameList(names: seq<string>, clusters: map<string, seq<string>>, first: string, second: string, s: nat, e: nat)
    requires forall k :: k in clusters ==> ',' !in k
    requires ',' !in first && ',' !in second
    requires Lookup(names, first) == Some(s) && Lookup(names, second) == Some(e)
    ensures ResolveIn(names, clusters, first + "," + second) == Some({names[s], names[e]})
  {
    var filter := first + "," + second;
    SplitTwo(first, second);
    ListOfTwo(names, first, second, s, e);
    assert filter[|first|] == ',';
    assert Lower(filter)[|first|] == ',';
  }

  /** Facts about the literal names the examples use. */
  lemma ExampleNamesPlain()
    ensures '-' !in "Genesis" && ',' !in "Genesis"
    ensures '-' !in "Exodus" && ',' !in "Exodus"
    ensures '-' !in "Deuteronomy" && ',' !in "Deuteronomy"
  {
  }

  /** "Genesis-Deuteronomy" resolves to the five books of the Torah. */
  lemma GenesisThroughDeuteronomy()
    ensures ResolveBookNames("Genesis-Deuteronomy") == Some(TorahSet())
    ensures |TorahSet()| == 5
  {
    assert "Genesis" + "-" + "Deuteronomy" == "Genesis-Deuteronomy";
    GenesisIsFirst();
    DeuteronomyIsFifth();
    ExampleNamesPlain();
    ClusterNamesPlain();
    TwoNameRange(AllBooks, Clusters, "Genesis", "Deuteronomy", 0, 4);
    TorahSpan();
  }

  function TorahSet(): set<string> {
    set b | b in Torah
  }

  /** A span of five positions holds the five names at them. */
  lemma SpanOfFive(names: seq<string>, s: nat)
    requires s + 4 < |names|
    ensures Span(names, s, s + 4) == {names[s], names[s + 1], names[s + 2], names[s + 3], names[s + 4]}
  {
  }

  /** The five books of the Torah are distinct. */
  lemma TorahDistinct()
    ensures TorahSet() == {"Genesis", "Exodus", "Leviticus", "Numbers", "Deuteronomy"}
    ensures |TorahSet()| == 5
  {
    assert TorahSet() == {"Genesis", "Exodus", "Leviticus", "Numbers", "Deuteronomy"};
  }

  /** The books from position 0 through 4 are exactly the five of the Torah. */
  lemma TorahSpan()
    ensures Span(AllBooks, 0, 4) == TorahSet()
    ensures |TorahSet()| == 5
  {
    CanonOpensWithTorah();
    SpanOfFive(AllBooks, 0);
    TorahDistinct();
    var t := AllBooks[..5];
    assert AllBooks[0] == t[0] && AllBooks[1] == t[1] && AllBooks[2] == t[2] && AllBooks[3] == t[3] && AllBooks[4] == t[4];
  }

  /** The same range reversed is not reordered: it is unresolved. */
  lemma DeuteronomyThroughGenesis()
    ensures ResolveBookNames("Deuteronomy-Genesis").None?
  {
    assert "Deuteronomy" + "-" + "Genesis" == "Deuteronomy-Genesis";
    GenesisIsFirst();
    DeuteronomyIsFifth();
    ExampleNamesPlain();
    ClusterNamesPlain();
    TwoNameRange(AllBooks, Clusters, "Deuteronomy", "Genesis", 4, 0);
  }

  /** "Genesis,Exodus" resolves to two books. */
  lemma GenesisAndExodus()
    ensures ResolveBookNames("Genesis,Exodus") == Some({"Genesis", "Exodus"})
    ensures |{"Genesis", "Exodus"}| == 2
  {
    assert "Genesis" + "," + "Exodus" == "Genesis,Exodus";
    GenesisIsFirst();
    ExodusIsSecond();
    ExampleNamesPlain();
    ClusterNamesPlain();
    TwoNameList(AllBooks, Clusters, "Genesis", "Exodus", 0, 1);
    FirstTwoBooks();
  }

  lemma FirstTwoBooks()
    ensures AllBooks[0] == "Genesis" && AllBooks[1] == "Exodus"
    ensures |{"Genesis", "Exodus"}| == 2
  {
    CanonOpensWithTorah();
    var t := AllBooks[..5];
    assert AllBooks[0] == t[0] && AllBooks[1] == t[1];
  }
}
