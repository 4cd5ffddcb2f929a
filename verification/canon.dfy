/**
 * The canon registry: both testaments' book lists in canonical order, their
 * concatenation `AllBooks` (the order that book ranges follow), and the
 * table of named clusters.
 *
 * Every cluster of the table is a contiguous run of one testament, and the
 * runs tile the Old Testament exactly, so the testament lists are written
 * here as concatenations of those runs; the values are the same lists,
 * name for name and in the same order.
 */
module Canon {
  import opened Text

  const Torah: seq<string> := ["Genesis", "Exodus", "Leviticus", "Numbers", "Deuteronomy"]

  const Historical: seq<string> := [
    "Joshua", "Judges", "Ruth", "1 Samuel", "2 Samuel",
    "1 Kings", "2 Kings", "1 Chronicles", "2 Chronicles",
    "Ezra", "Nehemiah", "Esther"
  ]

  const Wisdom: seq<string> := ["Job", "Psalm", "Proverbs", "Ecclesiastes", "Song of Solomon"]

  const MajorProphets: seq<string> := ["Isaiah", "Jeremiah", "Lamentations", "Ezekiel", "Daniel"]

  const MinorProphets: seq<string> := [
    "Hosea", "Joel", "Amos", "Obadiah", "Jonah", "Micah",
    "Nahum", "Habakkuk", "Zephaniah", "Haggai", "Zechariah", "Malachi"
  ]

  const Prophets: seq<string> := MajorProphets + MinorProphets

  const Gospels: seq<string> := ["Matthew", "Mark", "Luke", "John"]

  const Pauline: seq<string> := [
    "Romans", "1 Corinthians", "2 Corinthians", "Galatians", "Ephesians",
    "Philippians", "Colossians", "1 Thessalonians", "2 Thessalonians",
    "1 Timothy", "2 Timothy", "Titus", "Philemon"
  ]

  /** The New Testament letters after Philemon; not a cluster of the table. */
  const LaterEpistles: seq<string> := [
    "Hebrews", "James", "1 Peter", "2 Peter", "1 John", "2 John", "3 John", "Jude"
  ]

  const OldTestament: seq<string> := Torah + Historical + Wisdom + Prophets

  const NewTestament: seq<string> := Gospels + ["Acts"] + Pauline + LaterEpistles + ["Revelation"]

  const OldTestamentSet: set<string> := set b | b in OldTestament
  const NewTestamentSet: set<string> := set b | b in NewTestament

  /** Canonical order: Genesis through Malachi, then Matthew through Revelation. */
  const AllBooks: seq<string> := OldTestament + NewTestament

  /** The cluster table; its keys are lower-case and "pentateuch" repeats "torah". */
  const Clusters: map<string, seq<string>> := map[
    "torah" := Torah,
    "pentateuch" := Torah,
    "gospels" := Gospels,
    "pauline" := Pauline,
    "wisdom" := Wisdom,
    "historical" := Historical,
    "prophets" := Prophets
  ]

  lemma CanonSizes()
    ensures |OldTestament| == 39 && |NewTestament| == 27 && |AllBooks| == 66
  {
  }

  /** The canon runs Genesis through Malachi, then Matthew through Revelation. */
  lemma CanonOrder()
    ensures AllBooks[0] == "Genesis" && AllBooks[38] == "Malachi"
    ensures AllBooks[39] == "Matthew" && AllBooks[65] == "Revelation"
    ensures AllBooks[..39] == OldTestament && AllBooks[39..] == NewTestament
  {
  }

  /** The cluster table has seven names; its distinct lists hold 5, 4, 13, 5, 12 and 17 books. */
  lemma ClusterTable()
    ensures Clusters.Keys == {"torah", "pentateuch", "gospels", "pauline", "wisdom", "historical", "prophets"}
    ensures |Torah| == 5 && |Gospels| == 4 && |Pauline| == 13
    ensures |Wisdom| == 5 && |Historical| == 12 && |Prophets| == 17
  {
  }

  lemma TorahIsPentateuch()
    ensures "torah" in Clusters && "pentateuch" in Clusters
    ensures Clusters["torah"] == Clusters["pentateuch"]
  {
  }

  /** Every book a cluster names is a canonical book. */
  lemma ClustersWithinCanon()
    ensures forall k, b :: k in Clusters && b in Clusters[k] ==> b in AllBooks
  {
    forall k, b | k in Clusters && b in Clusters[k]
      ensures b in AllBooks
    {
      assert b in OldTestament || b in NewTestament;
    }
  }

  // A name's case-folded length with its first and third letters. No Old
  // Testament name has the fingerprint of a New Testament name, which lets the
  // solver separate the testaments by comparing short tuples instead of strings.

  function Fingerprint(s: string): (int, char, char) {
    if |s| < 3 then (|s|, ' ', ' ') else (|s|, LowerChar(s[0]), LowerChar(s[2]))
  }

  const NewFingerprints: set<(int, char, char)> := {
    (4, 'a', 't'), (4, 'j', 'd'), (4, 'j', 'h'), (4, 'l', 'k'), (4, 'm', 'r'),
    (5, 'j', 'm'), (5, 't', 't'), (6, '1', 'j'), (6, '2', 'j'), (6, '3', 'j'),
    (6, 'r', 'm'), (7, '1', 'p'), (7, '2', 'p'), (7, 'h', 'b'), (7, 'm', 't'),
    (8, 'p', 'i'), (9, '1', 't'), (9, '2', 't'), (9, 'e', 'h'), (9, 'g', 'l'),
    (10, 'c', 'l'), (10, 'r', 'v'), (11, 'p', 'i'), (13, '1', 'c'),
    (13, '2', 'c'), (15, '1', 't'), (15, '2', 't')
  }

  /** Names equal up to ASCII case have equal fingerprints. */
  lemma FingerprintIgnoresCase(a: string, b: string)
    requires Lower(a) == Lower(b)
    ensures Fingerprint(a) == Fingerprint(b)
  {
    assert |a| == |Lower(a)|;
    if |a| >= 3 {
      assert Lower(a)[0] == LowerChar(a[0]) && Lower(b)[0] == LowerChar(b[0]);
      assert Lower(a)[2] == LowerChar(a[2]) && Lower(b)[2] == LowerChar(b[2]);
    }
  }

  lemma TorahFingerprints(b: string)
    requires b in Torah
    ensures Fingerprint(b) !in NewFingerprints
  {
  }

  lemma HistoricalFingerprints(b: string)
    requires b in Historical
    ensures Fingerprint(b) !in NewFingerprints
  {
    assert Historical == Historical[..6] + Historical[6..];
    if b in Historical[..6] {
      HistoricalFingerprintsFirst(b);
    } else {
      HistoricalFingerprintsLast(b);
    }
  }

  lemma HistoricalFingerprintsFirst(b: string)
    requires b in Historical[..6]
    ensures Fingerprint(b) !in NewFingerprints
  {
  }

  lemma HistoricalFingerprintsLast(b: string)
    requires b in Historical[6..]
    ensures Fingerprint(b) !in NewFingerprints
  {
  }

  lemma WisdomFingerprints(b: string)
    requires b in Wisdom
    ensures Fingerprint(b) !in NewFingerprints
  {
  }

  lemma MajorProphetsFingerprints(b: string)
    requires b in MajorProphets
    ensures Fingerprint(b) !in NewFingerprints
  {
  }

  lemma MinorProphetsFingerprints(b: string)
    requires b in MinorProphets
    ensures Fingerprint(b) !in NewFingerprints
  {
    assert MinorProphets == MinorProphets[..6] + MinorProphets[6..];
    if b in MinorProphets[..6] {
      MinorProphetsFingerprintsFirst(b);
    } else {
      MinorProphetsFingerprintsLast(b);
    }
  }

  lemma MinorProphetsFingerprintsFirst(b: string)
    requires b in MinorProphets[..6]
    ensures Fingerprint(b) !in NewFingerprints
  {
  }

  lemma MinorProphetsFingerprintsLast(b: string)
    requires b in MinorProphets[6..]
    ensures Fingerprint(b) !in NewFingerprints
  {
  }

  lemma GospelsFingerprints(b: string)
    requires b in Gospels
    ensures Fingerprint(b) in NewFingerprints
  {
  }

  lemma PaulineFingerprints(b: string)
    requires b in Pauline
    ensures Fingerprint(b) in NewFingerprints
  {
  }

  lemma LaterEpistlesFingerprints(b: string)
    requires b in LaterEpistles
    ensures Fingerprint(b) in NewFingerprints
  {
  }

  lemma OldFingerprintsOutside(b: string)
    requires b in OldTestament
    ensures Fingerprint(b) !in NewFingerprints
  {
    if b in Torah {
      TorahFingerprints(b);
    } else if b in Historical {
      HistoricalFingerprints(b);
    } else if b in Wisdom {
      WisdomFingerprints(b);
    } else if b in MajorProphets {
      MajorProphetsFingerprints(b);
    } else {
      MinorProphetsFingerprints(b);
    }
  }

  lemma NewFingerprintsCover(b: string)
    requires b in NewTestament
    ensures Fingerprint(b) in NewFingerprints
  {
    if b in Gospels {
      GospelsFingerprints(b);
    } else if b in Pauline {
      PaulineFingerprints(b);
    } else if b in LaterEpistles {
      LaterEpistlesFingerprints(b);
    }
  }

  /**
   * No Old Testament name equals a New Testament name, even ignoring ASCII
   * case; in particular the two testament sets are disjoint.
   */
  lemma TestamentsDisjoint(b: string, c: string)
    requires b in OldTestament && c in NewTestament
    ensures Lower(b) != Lower(c)
  {
    OldFingerprintsOutside(b);
    NewFingerprintsCover(c);
    if Lower(b) == Lower(c) {
      FingerprintIgnoresCase(b, c);
    }
  }

  lemma TestamentSetsDisjoint()
    ensures OldTestamentSet !! NewTestamentSet
  {
    forall b | b in OldTestamentSet && b in NewTestamentSet
      ensures false
    {
      TestamentsDisjoint(b, b);
    }
  }
}
