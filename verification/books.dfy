/** `listBooks`: the distinct book names of a collection, in order of first appearance. */
module Books {
  import opened Seqs
  import opened Verses

  /** Whether some verse of `verses` is from book `b`. */
  predicate HasBook(verses: seq<Verse>, b: string) {
    exists k :: 0 <= k < |verses| && verses[k].book == b
  }

  /** The position of the first verse from book `b`; `|verses|` when there is none. */
  function FirstOf(verses: seq<Verse>, b: string): (k: nat)
    ensures k <= |verses|
    ensures k < |verses| <==> HasBook(verses, b)
    ensures k < |verses| ==> verses[k].book == b
    ensures forall j :: 0 <= j < k ==> verses[j].book != b
  {
    if |verses| == 0 then 0
    else if verses[0].book == b then 0
    else
      var k := 1 + FirstOf(verses[1..], b);
      assert forall j :: 1 <= j < |verses| ==> verses[j] == verses[1..][j - 1];
      k
  }

  /**
   * `books` lists the books of the first `k` verses, once each, in order of
   * first appearance.
   */
  ghost predicate ListsFirstSeen(verses: seq<Verse>, k: nat, books: seq<string>)
    requires k <= |verses|
  {
    && |books| <= k
    && NoDuplicates(books)
    && (forall b :: b in books <==> HasBook(verses[..k], b))
    && (forall i :: 0 <= i < |books| ==> HasBook(verses, books[i]) && FirstOf(verses, books[i]) < k)
    && (forall i, j :: 0 <= i < j < |books| ==> FirstOf(verses, books[i]) < FirstOf(verses, books[j]))
  }

  /** One loop step: the book of verse `k` is appended exactly when it is new. */
  lemma ListStep(verses: seq<Verse>, k: nat, books: seq<string>, b: string)
    requires k < |verses| && ListsFirstSeen(verses, k, books) && b == verses[k].book
    ensures b in books ==> ListsFirstSeen(verses, k + 1, books)
    ensures b !in books ==> ListsFirstSeen(verses, k + 1, books + [b])
  {
    PrefixHasBook(verses, k, b);
    if b !in books {
      NoDuplicatesAppend(books, b);
      var next := books + [b];
      assert forall i :: 0 <= i < |books| ==> next[i] == books[i];
    }
  }

  /**
   * Reference definition: the first-seen books of a collection, read verse by
   * verse, appending a book only when it is not listed yet.
   */
  function FirstSeen(verses: seq<Verse>): (books: seq<string>)
    ensures |books| <= |verses|
  {
    if |verses| == 0 then []
    else
      var prev := FirstSeen(verses[..|verses| - 1]);
      var b := verses[|verses| - 1].book;
      if b in prev then prev else prev + [b]
  }

  /** The reference list of every prefix lists that prefix's books, once each, in order of first appearance. */
  lemma {:induction false} FirstSeenLists(verses: seq<Verse>, k: nat)
    requires k <= |verses|
    ensures ListsFirstSeen(verses, k, FirstSeen(verses[..k]))
  {
    if k > 0 {
      FirstSeenLists(verses, k - 1);
      var prefix := verses[..k];
      assert prefix[..k - 1] == verses[..k - 1];
      assert prefix[k - 1] == verses[k - 1];
      ListStep(verses, k - 1, FirstSeen(verses[..k - 1]), verses[k - 1].book);
    }
  }

  /** The first-seen list names no book twice. */
  lemma {:induction false} FirstSeenDistinct(verses: seq<Verse>)
    ensures NoDuplicates(FirstSeen(verses))
  {
    FirstSeenComplete(verses);
  }

  /** The first-seen list holds exactly the books of the collection. */
  lemma {:induction false} FirstSeenBooks(verses: seq<Verse>)
    ensures forall b :: b in FirstSeen(verses) <==> HasBook(verses, b)
  {
    FirstSeenComplete(verses);
  }

  /** The first-seen list orders books by their first verse. */
  lemma FirstSeenOrdered(verses: seq<Verse>)
    ensures forall i, j :: 0 <= i < j < |FirstSeen(verses)| ==>
      FirstOf(verses, FirstSeen(verses)[i]) < FirstOf(verses, FirstSeen(verses)[j])
  {
    FirstSeenComplete(verses);
  }

  lemma FirstSeenComplete(verses: seq<Verse>)
    ensures ListsFirstSeen(verses, |verses|, FirstSeen(verses))
  {
    FirstSeenLists(verses, |verses|);
    assert verses[..|verses|] == verses;
  }

  /** `listBooks`: the loop with a set of seen books computes the first-seen list. */
  method ListBooks(verses: seq<Verse>) returns (books: seq<string>)
    ensures books == FirstSeen(verses)
  {
    var seen: set<string> := {};
    books := [];
    for k := 0 to |verses|
      invariant forall b :: b in seen <==> b in books
      invariant books == FirstSeen(verses[..k])
    {
      var b := verses[k].book;
      assert verses[..k + 1][..k] == verses[..k];
      if b !in seen {
        seen := seen + {b};
        books := books + [b];
      }
    }
    assert verses[..|verses|] == verses;
  }

  /**
   * Extending the scanned prefix by one verse: the books seen are the earlier
   * ones plus that verse's book, whose first verse is the new one exactly when
   * it was not seen before.
   */
  lemma PrefixHasBook(verses: seq<Verse>, k: nat, b: string)
    requires k < |verses| && verses[k].book == b
    ensures forall c :: HasBook(verses[..k + 1], c) <==> HasBook(verses[..k], c) || c == b
    ensures HasBook(verses, b)
    ensures !HasBook(verses[..k], b) ==> FirstOf(verses, b) == k
    ensures forall c :: HasBook(verses[..k], c) ==> HasBook(verses, c) && FirstOf(verses, c) < k
  {
    assert verses[..k + 1][k].book == b;
    forall c ensures HasBook(verses[..k + 1], c) <==> HasBook(verses[..k], c) || c == b {
      if HasBook(verses[..k + 1], c) {
        var j :| 0 <= j < k + 1 && verses[..k + 1][j].book == c;
        if j < k {
          assert verses[..k][j] == verses[j];
        }
      }
      if HasBook(verses[..k], c) {
        var j :| 0 <= j < k && verses[..k][j].book == c;
        assert verses[..k + 1][j] == verses[j];
      }
    }
    assert verses[k].book == b;
    if !HasBook(verses[..k], b) {
      forall j | 0 <= j < k ensures verses[j].book != b {
        assert verses[..k][j] == verses[j];
      }
    }
    forall c | HasBook(verses[..k], c) ensures HasBook(verses, c) && FirstOf(verses, c) < k {
      var j :| 0 <= j < k && verses[..k][j].book == c;
      assert verses[j] == verses[..k][j];
    }
  }
}
