# Bibliomancy core in Dafny

A model of the verse engine in `lib.ts`:

- the canon registry: the Old and New Testament book lists in canonical order, their concatenation, and the table of named clusters;
- `parseVerses`, which reads verse records out of a scripture text;
- `resolveBookNames`, which turns a filter expression into a set of books. It tries, in order:
  - a cluster name;
  - a comma-separated list, which resolves only if every entry is known;
  - a range, split at the first hyphen that gives two known books in canonical order;
- `filterVerses`, which handles the testament keywords, then the resolver, then falls back to a case-insensitive book-name match;
- `searchVerses`, which finds the keyword as a whole word, ignoring case and reading every character literally;
- `pickDaily`, which picks a verse using the 32-bit string hash of a date;
- `drawSpread`, which draws one verse per label of a named spread;
- `listBooks`, which lists the distinct books in order of first appearance.

Modules follow that structure:

- `Wrappers`: `Option`.
- `Text`: ECMAScript whitespace, `trim`, ASCII lower-casing, `indexOf`, `split`/`join`.
- `Seqs`: order-preserving filtering and first-match search.
- `Canon`, `Verses`, `Resolver`, `Filtering`, `Search`, `Daily`, `Spreads`, `Books`: one module each for the registry and the operations above.
- `ResolverExamples`: the resolver's documented examples, proved.

Design choices that differ from the source:

- **Null results.** A `null` or `undefined` result of the source is `None` here.
- **Empty collection in `PickDaily`.** The source indexes with `NaN` and yields `undefined`. `Daily.PickDaily` returns `None`.
- **Randomness in `drawSpread`.** The random draws are an explicit sequence of candidate positions, `rolls`, read in order. `Spreads.Expected` states independently which positions a draw takes. First come the first `min(labels, verses)` distinct rolls, in order of first appearance: a roll naming a used position is rolled again. Then, once every position is used, the following rolls are taken as they come, as the source's guard `used.size < verses.length` does. So a collection smaller than the spread still gets one card per label. `Spreads.DrawSpread` draws exactly those positions. When the rolls run out before every label has a verse, the result is `None`; the source's unbounded random draws never run out.
- **Empty collection in `drawSpread`.** Each card's verse is `None`, where the source has `undefined`.
- **Characters.** Dafny strings hold Unicode scalar values. `pickDaily` hashes UTF-16 code units, so `Daily.CodeUnits` writes out the UTF-16 encoding, including surrogate pairs. `Daily.CodeUnitsRoundTrip` proves that encoding loses nothing.
- **Book names in `parseVerses`.** The pattern `^(.+?)\s+\d+:\d+$` is modelled exactly:
  - `\s` is ECMAScript whitespace, the same set `trim` removes;
  - `.` excludes the four line terminators;
  - the group is lazy, so the book is the shortest prefix that works.

## Model

| member | source | states |
|---|---|---|
| Text.Lower | lib.ts:75 | lower-casing keeps the length and maps every character by ASCII case folding, leaving all other characters as they are |
| Text.Trim | lib.ts:84 | the trimmed string has no whitespace at either end and is empty exactly when the input is all whitespace |
| Text.TrimPadded | lib.ts:101-102 | trimming removes exactly the whitespace padding around a core that neither starts nor ends with whitespace |
| Text.TrimIdempotent | lib.ts:84 | trimming a trimmed string changes nothing |
| Text.IndexOf | lib.ts:61 | the first position holding the character; none exactly when the character does not occur |
| Text.Split | lib.ts:57 | split yields at least one part, and no part contains the separator |
| Text.JoinSplit | lib.ts:57 | joining the parts of a split with the separator gives back the original string |
| Text.SplitJoin | lib.ts:84 | splitting a join of separator-free parts gives back exactly those parts |
| Seqs.Filter | lib.ts:118-128 | `filter` keeps no more elements than it is given, keeps only elements that pass the test, and keeps every element that passes |
| Seqs.FilterIsSubsequence | lib.ts:144 | the kept elements stay in their original order: the k-th kept element is the input's element at the k-th passing position |
| Canon.CanonSizes | lib.ts:3-25 | 39 Old Testament books, 27 New Testament books, 66 in all |
| Canon.CanonOrder | lib.ts:3-25 | `AllBooks` is the Old Testament list followed by the New, Genesis first, Malachi then Matthew at the seam, Revelation last |
| Canon.ClusterTable | lib.ts:27-47 | the cluster table has exactly the seven names `torah`, `pentateuch`, `gospels`, `pauline`, `wisdom`, `historical` and `prophets`, with lists of 5, 5, 4, 13, 5, 12 and 17 books |
| Canon.TorahIsPentateuch | lib.ts:28-29 | the `torah` and `pentateuch` clusters are the same list |
| Canon.ClustersWithinCanon | lib.ts:27-47 | every book a cluster names is a canonical book |
| Canon.TestamentSetsDisjoint | lib.ts:23-24 | no book is in both testament sets |
| Verses.ChapterVerseSuffixParts | lib.ts:66 | the greedy reading accepts a suffix exactly when it splits into whitespace, digits, a colon and digits |
| Verses.BookOf | lib.ts:66 | the book read from a reference is a non-empty prefix of it; `Verses.BookOfIsLazyMatch` states which prefix |
| Verses.BookOfIsLazyMatch | lib.ts:65-67 | the book found is a terminator-free prefix followed by a chapter:verse suffix, no shorter prefix is; none is found exactly when no prefix is |
| Verses.BookOfComposed | lib.ts:65-67 | a book name not ending in whitespace, followed by a chapter:verse suffix, is read back as that book |
| Verses.SamuelExample | lib.ts:65-66 | `1 Samuel 3:10` yields the book `1 Samuel` |
| Verses.ParseLine | lib.ts:61-68 | a line without a tab is skipped; a kept line is its reference, a tab and its text, and the reference holds no tab and yields the verse's book |
| Verses.ParseLines | lib.ts:60-69 | at most one verse per line, each well-formed |
| Verses.ParseVerses | lib.ts:55-72 | every verse parsed from a text is well-formed, and there are no more of them than lines after the two header lines |
| Verses.ParseLinesAppend | lib.ts:60-69 | the verses of two runs of lines are the verses of the first run followed by those of the second |
| Verses.ParseRender | lib.ts:61-68 | a well-formed verse written as reference, tab, text parses back to itself |
| Verses.ParseDocument | lib.ts:55-72 | two header lines followed by one line per well-formed verse parse back to exactly those verses, in order |
| Resolver.Lookup | lib.ts:85-88 | the first canonical position whose lower-cased name equals the trimmed, lower-cased token; none exactly when no name matches |
| Resolver.ResolveList | lib.ts:87-92 | a list is unresolved exactly when one of its tokens names no book |
| Resolver.ResolveListContents | lib.ts:83-93 | a resolved list holds exactly the books its tokens name |
| Resolver.LookupListed | lib.ts:85-88 | a token that is a listed name, with no surrounding whitespace, finds that name's position when no earlier name equals it up to case |
| Resolver.FirstRangeSplit | lib.ts:99-108 | the leftmost hyphen at which both sides name books in canonical order; none exactly when there is no such hyphen |
| Resolver.Span | lib.ts:106 | a book is in the span exactly when it sits at a position from the start through the end inclusive |
| Resolver.ResolveRange | lib.ts:96-108 | the range rule; its contract is carried by `Resolver.FirstRangeSplit`, `Resolver.Span` and `Resolver.RangeReading` |
| Resolver.ResolveIn | lib.ts:74-112 | the cascade over any catalogue; its contract is carried by `Resolver.ClusterRule`, `Resolver.CommaRule`, `Resolver.RangeDispatch`, `Resolver.OtherwiseUnresolved` and `Resolver.ResolvedWithin` |
| Resolver.ResolveBookNames | lib.ts:74-112 | the cascade over `AllBooks` and `Clusters`; its contract is carried by `Resolver.ResolvedWithinCanon` and the rule lemmas of `Resolver.ResolveIn` |
| Resolver.ClusterRule | lib.ts:75-80 | a cluster name, in any case, resolves to exactly that cluster's books, whatever else the filter contains |
| Resolver.CommaRule | lib.ts:83-84 | a comma filter that is not a cluster name is decided by the list rule on its comma-separated tokens |
| Resolver.RangeDispatch | lib.ts:96-97 | a hyphen filter with no comma that is not a cluster name is decided by the range rule |
| Resolver.RangeReading | lib.ts:96-108 | the range rule resolves exactly when some hyphen splits the filter into two books in canonical order, and then gives every book between the two at the leftmost such hyphen |
| Resolver.OtherwiseUnresolved | lib.ts:111 | a filter with no cluster name, comma or hyphen is unresolved |
| Resolver.ResolvedWithin | lib.ts:74-112 | over any catalogue whose clusters list only catalogue names, every resolved book is a catalogue name |
| Resolver.ResolvedWithinCanon | lib.ts:74-112 | every resolved book is a canonical book |
| Resolver.RangeOfTwoNames | lib.ts:96-108 | two hyphen-free names joined by one hyphen form a range exactly when both are known and in canonical order |
| ResolverExamples.TwoNameRange | lib.ts:78-108 | over a cluster table with no hyphenated name, two known hyphen-free, comma-free names joined by a hyphen resolve to their span, or to nothing when reversed |
| ResolverExamples.TwoNameList | lib.ts:78-93 | over a cluster table with no name containing a comma, two known comma-free names joined by a comma resolve to the set of both |
| ResolverExamples.GenesisThroughDeuteronomy | bibliomancy.test.ts:193-197 | `Genesis-Deuteronomy` resolves to the five books of the Torah |
| ResolverExamples.DeuteronomyThroughGenesis | bibliomancy.test.ts:199-201 | `Deuteronomy-Genesis` is unresolved |
| ResolverExamples.GenesisAndExodus | bibliomancy.test.ts:187-191 | `Genesis,Exodus` resolves to two books |
| Filtering.SelectionOf | lib.ts:115-128 | which verses a filter keeps: the keywords first, then the resolver, then the book-name fallback; its contract is carried by `Filtering.FilterAllUnchanged`, `Filtering.FilterOldTestament`, `Filtering.FilterNewTestament`, `Filtering.ResolvedFilterKeeps` and `Filtering.NamedBookKeeps` |
| Filtering.FilterVerses | lib.ts:114-129 | the filtered verses are no more than, and all among, the input verses |
| Filtering.FilterVersesIsSubsequence | lib.ts:114-129 | the result is the input at strictly increasing positions, exactly those whose verse is selected |
| Filtering.FilterVersesKeeps | lib.ts:114-129 | a verse is kept exactly when it is in the input and the filter's selection accepts it |
| Filtering.FilterAllUnchanged | lib.ts:117 | `all`, in any case, returns the input unchanged |
| Filtering.FilterOldTestament | lib.ts:118 | `ot`, in any case, keeps exactly the Old Testament verses, none of which is from a New Testament book |
| Filtering.FilterNewTestament | lib.ts:119 | `nt`, in any case, keeps exactly the New Testament verses, none of which is from an Old Testament book |
| Filtering.ResolvedFilterKeeps | lib.ts:122-125 | a filter the resolver reads keeps exactly the verses from the resolved books |
| Filtering.NamedBookKeeps | lib.ts:127-128 | an unresolved filter keeps exactly the verses whose book equals it ignoring case |
| Filtering.TorahFiltersAsPentateuch | bibliomancy.test.ts:95-99 | `torah` and `pentateuch` filter any collection alike |
| Filtering.UnknownNameKeepsNothing | bibliomancy.test.ts:72-74 | a filter naming nothing keeps nothing of a collection of canonical verses |
| Search.Escape | lib.ts:142 | escaping never shortens the keyword and leaves a keyword without metacharacters unchanged |
| Search.ReadEscape | lib.ts:142 | the escaped keyword is a literal pattern that stands for exactly the keyword |
| Search.FindWholeWord | lib.ts:143-144 | the leftmost position where the keyword occurs between two word boundaries; none exactly when it occurs nowhere |
| Search.Matches | lib.ts:143-144 | the case-insensitive whole-word test; its contract is carried by `Search.MatchesIff` |
| Search.MatchesIff | lib.ts:143-144 | the test succeeds exactly when the keyword occurs somewhere as a whole word |
| Search.SearchVerses | lib.ts:141-145 | the found verses are no more than, and all among, the input verses |
| Search.SearchKeeps | lib.ts:141-145 | a verse is found exactly when it is in the input and its text contains the keyword, metacharacters included, as a whole word |
| Search.SearchIsSubsequence | lib.ts:144 | the found verses are the input at strictly increasing positions |
| Search.SearchIgnoresCase | lib.ts:143 | keywords equal up to ASCII case find the same verses |
| Search.WholeWordIgnoresCase | lib.ts:143 | keywords equal up to ASCII case match at the same positions |
| Search.WordContinuationBlocks | lib.ts:143 | a keyword ending in a word character does not match where the text continues with one |
| Search.NonWordStartNeedsWordBefore | lib.ts:143 | a keyword starting with a non-word character matches only right after a word character |
| Search.NonWordEndNeedsWordAfter | lib.ts:143 | a keyword ending with a non-word character matches only right before a word character |
| Search.BeginIsNotBeginning | lib.ts:143 | `begin` is not a whole word of `beginning` |
| Search.BeginningFoundIgnoringCase | lib.ts:143 | `BEGINNING` is a whole word of `In the beginning` |
| Daily.Wrap32 | lib.ts:135 | `x \| 0` lies in signed 32-bit range and is congruent to `x` modulo 2^32 |
| Daily.Wrap32Congruent | lib.ts:135 | values congruent modulo 2^32 wrap alike |
| Daily.CodeUnits | lib.ts:135 | every code unit is below 0x10000, and a string without supplementary characters has one unit per character, equal to its code |
| Daily.CodeUnitsRoundTrip | lib.ts:134-135 | reading the code units back yields the original string |
| Daily.Hash | lib.ts:133-136 | the hash stays in signed 32-bit range |
| Daily.HashIsWrappedPolynomial | lib.ts:133-136 | wrapping after every step equals wrapping the unbounded base-31 polynomial once |
| Daily.DailyIndex | lib.ts:137 | the index is a position of the collection |
| Daily.PickDaily | lib.ts:131-139 | no verse exactly when the collection is empty; otherwise the verse at the hash-derived index |
| Daily.DailyPickInRange | lib.ts:137-138 | the verse of the day is one of the verses |
| Daily.DailySingleVerse | lib.ts:137 | a one-verse collection always yields its only verse, whatever the date |
| Spreads.SpreadsHaveThreeLabels | lib.ts:152-157 | every named spread has three labels |
| Spreads.Roll | lib.ts:165-168 | the rolled position is a valid roll, and an unused one unless every position is used; the first roll is taken at once when it is unused or every position is used; every roll passed over on the way named a used position while unused ones remained, and so did every roll left when the rolls run out |
| Spreads.FreshValues | lib.ts:164-170 | the positions a draw takes while unused ones remain have no repeats and are exactly the values rolled so far |
| Spreads.ExpectedLength | lib.ts:164-171 | a finished draw takes one position per label |
| Spreads.ExpectedDistinct | lib.ts:168 | with at least as many verses as labels, a draw never takes a position twice |
| Spreads.ExpectedSettles | lib.ts:164-171 | rolls that settle the draw are taken exactly as they come |
| Spreads.ResampledRepeat | lib.ts:166-168 | three verses, rolls 0, 0, 1, 2: the repeated 0 is rolled again and the draw is 0, 1, 2 |
| Spreads.ResampledThenTaken | lib.ts:166-168 | two verses, three labels, rolls 1, 1, 0, 1: the repeated 1 is rolled again until 0 comes, and then, with both positions used, the last 1 is taken as it comes |
| Spreads.DrawPositions | lib.ts:164-171 | the positions the loop rolls, one per label, are exactly the expected draw, and each is a valid roll; none when the rolls run out first |
| Spreads.DrawCards | lib.ts:162-172 | one card per label, in label order, each holding the verse at its picked position; the picked positions are exactly the expected draw, so they are distinct when there are at least as many verses as labels, and rolls that settle the draw give one card per label at exactly those positions |
| Spreads.DrawSpread | lib.ts:159-173 | an unknown spread draws nothing; a known one draws one card per label of that spread, in order, at exactly the positions of the expected draw, distinct when the verses suffice, and always succeeds when the rolls settle the draw |
| Spreads.SmallCollectionsSettle | lib.ts:164-171 | with one verse or none, three rolls of 0 settle a three-card draw, so every label gets a card, as the resampling guard allows |
| Books.FirstOf | lib.ts:178-183 | the position of the first verse from a book: it is from that book and no earlier one is, and it lies inside the collection exactly when some verse is from that book |
| Books.PrefixHasBook | lib.ts:178-182 | scanning one more verse adds exactly its book, first seen there exactly when not seen before |
| Books.ListStep | lib.ts:179-182 | appending a verse's book only when it is not yet listed keeps the list equal to the first-seen books of the scanned prefix |
| Books.FirstSeenLists | lib.ts:178-183 | the reference list of every prefix holds that prefix's books, once each, in order of first appearance |
| Books.FirstSeenDistinct | lib.ts:176-182 | the listed books have no duplicates |
| Books.FirstSeenBooks | lib.ts:178-183 | a book is listed exactly when some verse is from it, so an empty collection lists nothing |
| Books.FirstSeenOrdered | lib.ts:178-183 | books are listed in order of their first verse |
| Books.ListBooks | lib.ts:175-185 | the loop with a set of seen names returns exactly the reference first-seen list, which the three lemmas above characterise |

## Left out

- Reading the file (lib.ts:56): `Verses.ParseVerses` takes the text that was read.
- `bibliomancy.ts`: command-line glue (arguments, console output, exit codes) with no logic of its own.
- `Math.random` (lib.ts:167): replaced by the explicit `rolls` sequence. Uniformity and the probabilistic termination of the resampling loop are not modelled.
- The current-date default of `pickDaily` (lib.ts:132): the date is a required argument.
- Inherited object keys: `CLUSTERS[f]` and `SPREADS[name]` also find prototype members such as `constructor`, which are truthy and make the source throw. Both tables are finite maps holding only their own keys.
- Text.Lower: lower-cases ASCII letters only. `toLowerCase` also folds non-ASCII letters, so non-ASCII letters in a filter or in a parsed book name are compared here without Unicode case folding. For example, `toLowerCase` maps U+212A KELVIN SIGN to `k`, so the filter `Mar` followed by U+212A keeps Mark's verses in the source (lib.ts:115, 128) but none in the model; a parsed book name with accented capitals, which the fallback at lib.ts:128 also lower-cases, is affected the same way.
- Search.WholeWordAt: ignores ASCII case only. The `i` flag also folds non-ASCII letters such as `é`/`É`, so a keyword with such letters can match text in the other case that the model rejects.
- Lone surrogates: a JavaScript string may hold an unpaired surrogate code unit, a Dafny string cannot, so `Daily.CodeUnits` covers well-formed text only.
- Spreads.SpreadResult: the source's field `label` is named `caption`, because `label` is a reserved word in Dafny.
- Resolver.CommaRule: states only that the list rule decides. What the list resolves to is stated by `Resolver.ResolveList` and `Resolver.ResolveListContents`.
- Resolver.RangeDispatch: states only that the range rule decides. What the range resolves to is stated by `Resolver.RangeReading`.
