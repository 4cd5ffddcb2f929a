/**
 * `filterVerses`: the three testament keywords, then the resolver, then a
 * case-insensitive match on the book name. Every branch is a stable filter.
 */
module Filtering {
  import opened Wrappers
  import opened Text
  import opened Seqs
  import opened Canon
  import opened Verses
  import opened Resolver

  /** Which verses a filter expression keeps. */
  datatype Selection =
    | Everything                 // "all": the input itself
    | InBooks(books: set<string>) // a testament, or whatever the resolver returned
    | NamedBook(key: string)     // fallback: book name equal to the lower-cased filter

  /** The selection a filter expression stands for, in the order the branches are tried. */
  function SelectionOf(filter: string): Selection {
    var f := Lower(filter);
    if f == "all" then Everything
    else if f == "ot" then InBooks(OldTestamentSet)
    else if f == "nt" then InBooks(NewTestamentSet)
    else match ResolveBookNames(filter)
      case Some(books) => InBooks(books)
      case None => NamedBook(f)
  }

  predicate Selects(sel: Selection, v: Verse) {
    match sel
    case Everything => true
    case InBooks(books) => v.book in books
    case NamedBook(key) => Lower(v.book) == key
  }

  /** `filterVerses`. */
  function FilterVerses(verses: seq<Verse>, filter: string): (r: seq<Verse>)
    ensures |r| <= |verses|
    ensures forall v :: v in r ==> v in verses
  {
    var sel := SelectionOf(filter);
    if sel.Everything? then verses else Filter(verses, v => Selects(sel, v))
  }

  /**
   * The filtered verses are the input verses at strictly increasing
   * positions, exactly those whose verse the filter selects.
   */
  lemma FilterVersesIsSubsequence(verses: seq<Verse>, filter: string)
    ensures var sel := SelectionOf(filter);
      var r := FilterVerses(verses, filter);
      var idx := Kept(verses, v => Selects(sel, v));
      && |r| == |idx|
      && (forall k :: 0 <= k < |r| ==> r[k] == verses[idx[k]])
      && (forall i :: 0 <= i < |verses| ==> (Selects(sel, verses[i]) <==> i in idx))
  {
    var sel := SelectionOf(filter);
    var p := v => Selects(sel, v);
    FilterIsSubsequence(verses, p);
    if sel.Everything? {
      FilterAll(verses, p);
    }
  }

  /** A verse is kept exactly when it is in the input and the filter selects it. */
  lemma FilterVersesKeeps(verses: seq<Verse>, filter: string, v: Verse)
    ensures v in FilterVerses(verses, filter) <==> v in verses && Selects(SelectionOf(filter), v)
  {
  }

  /** "all", in any case, returns the input unchanged. */
  lemma FilterAllUnchanged(verses: seq<Verse>, filter: string)
    requires Lower(filter) == "all"
    ensures FilterVerses(verses, filter) == verses
  {
  }

  /**
   * "ot", in any case, keeps exactly the Old Testament verses, none of which
   * is a New Testament verse.
   */
  lemma FilterOldTestament(verses: seq<Verse>, filter: string, v: Verse)
    requires Lower(filter) == "ot"
    ensures v in FilterVerses(verses, filter) <==> v in verses && v.book in OldTestamentSet
    ensures v in FilterVerses(verses, filter) ==> v.book !in NewTestamentSet
  {
    TestamentSetsDisjoint();
  }

  /**
   * "nt", in any case, keeps exactly the New Testament verses, none of which
   * is an Old Testament verse.
   */
  lemma FilterNewTestament(verses: seq<Verse>, filter: string, v: Verse)
    requires Lower(filter) == "nt"
    ensures v in FilterVerses(verses, filter) <==> v in verses && v.book in NewTestamentSet
    ensures v in FilterVerses(verses, filter) ==> v.book !in OldTestamentSet
  {
    TestamentSetsDisjoint();
  }

  /** "torah" and "pentateuch", in any case, filter alike. */
  lemma TorahFiltersAsPentateuch(verses: seq<Verse>, torah: string, pentateuch: string)
    requires Lower(torah) == "torah" && Lower(pentateuch) == "pentateuch"
    ensures FilterVerses(verses, torah) == FilterVerses(verses, pentateuch)
  {
    TorahIsPentateuch();
    assert SelectionOf(torah) == SelectionOf(pentateuch);
  }

  /** A filter the resolver reads keeps exactly the verses from the books it resolves to. */
  lemma ResolvedFilterKeeps(verses: seq<Verse>, filter: string, v: Verse)
    requires Lower(filter) != "all" && Lower(filter) != "ot" && Lower(filter) != "nt"
    requires ResolveBookNames(filter).Some?
    ensures v in FilterVerses(verses, filter) <==> v in verses && v.book in ResolveBookNames(filter).value
  {
    FilterVersesKeeps(verses, filter, v);
  }

  /**
   * A filter that is no keyword and that the resolver cannot read keeps
   * exactly the verses whose book name equals it ignoring case.
   */
  lemma NamedBookKeeps(verses: seq<Verse>, filter: string, v: Verse)
    requires Lower(filter) != "all" && Lower(filter) != "ot" && Lower(filter) != "nt"
    requires ResolveBookNames(filter).None?
    ensures v in FilterVerses(verses, filter) <==> v in verses && Lower(v.book) == Lower(filter)
  {
    FilterVersesKeeps(verses, filter, v);
  }

  /**
   * A filter that is no keyword, that the resolver cannot read, and that names
   * no canonical book, keeps nothing of a collection of canonical verses.
   */
  lemma UnknownNameKeepsNothing(verses: seq<Verse>, filter: string)
    requires Lower(filter) != "all" && Lower(filter) != "ot" && Lower(filter) != "nt"
    requires ResolveBookNames(filter).None?
    requires forall b :: b in AllBooks ==> Lower(b) != Lower(filter)
    requires forall v :: v in verses ==> v.book in AllBooks
    ensures FilterVerses(verses, filter) == []
  {
    var sel := SelectionOf(filter);
    assert sel == NamedBook(Lower(filter));
    forall i | 0 <= i < |verses|
      ensures !Selects(sel, verses[i])
    {
      assert verses[i] in verses;
    }
    FilterNone(verses, v => Selects(sel, v));
  }
}
