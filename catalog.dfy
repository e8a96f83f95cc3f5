/** The book catalog of the home page: the records read from the catalog
    document, the search filter over them, and what the book grid shows. */
module Catalog {
  import opened Text

  /** One record of the catalog document. */
  datatype Book = Book(
    title: string,
    descriptionShort: string,
    cover: string,
    detailPage: string,
    tags: seq<string>)

  /** What the book grid container holds: a single text message, or one card
      per book in display order. */
  datatype Grid = Message(text: string) | Cards(cards: seq<Book>)

  const NoBooksFound := "No books found."
  const UnableToLoad := "Unable to load books."

  /** The search predicate for an already lower-cased term: the lower-cased
      title includes it, or some lower-cased tag does. */
  predicate Matches(b: Book, term: string) {
    Contains(Lower(b.title), term)
    || exists i :: 0 <= i < |b.tags| && Contains(Lower(b.tags[i]), term)
  }

  /** `books.filter(b => Matches(b, term))`. */
  function Filter(books: seq<Book>, term: string): (r: seq<Book>)
    ensures |r| <= |books|
    ensures forall k :: 0 <= k < |r| ==> r[k] in books && Matches(r[k], term)
  {
    if books == [] then []
    else
      var rest := Filter(books[1..], term);
      if Matches(books[0], term) then [books[0]] + rest else rest
  }

  /** The search input handler's result for the raw input value: the value is
      lower-cased once and the whole catalog is filtered with it. */
  function Search(allBooks: seq<Book>, query: string): seq<Book> {
    Filter(allBooks, Lower(query))
  }

  /** What rendering a sequence leaves in the grid container. */
  function Rendered(books: seq<Book>): (g: Grid)
    ensures g.Message? <==> books == []
    ensures g.Message? ==> g.text == NoBooksFound
    ensures Shown(g) == books
  {
    if |books| == 0 then Message(NoBooksFound) else Cards(books)
  }

  /** The cards visible in a grid, in order. */
  function Shown(g: Grid): seq<Book> {
    match g
    case Message(_) => []
    case Cards(cs) => cs
  }

  /* ---------------------------------------------------------------------
     Subsequences
     --------------------------------------------------------------------- */

  /** idx lists, in strictly increasing order, positions of s whose elements
      spell out r. */
  ghost predicate Embedding(idx: seq<int>, r: seq<Book>, s: seq<Book>) {
    && |idx| == |r|
    && (forall k :: 0 <= k < |idx| ==> 0 <= idx[k] < |s| && r[k] == s[idx[k]])
    && (forall j, k :: 0 <= j < k < |idx| ==> idx[j] < idx[k])
  }

  ghost predicate IsSubsequence(r: seq<Book>, s: seq<Book>) {
    exists idx :: Embedding(idx, r, s)
  }

  /** Every position moved one place to the right. */
  ghost function Shifted(idx: seq<int>): (r: seq<int>)
    ensures |r| == |idx|
    ensures forall k :: 0 <= k < |idx| ==> r[k] == idx[k] + 1
  {
    seq(|idx|, k requires 0 <= k < |idx| => idx[k] + 1)
  }

  /** Putting one book in front of s moves an embedding one place right. */
  lemma EmbeddingShift(idx: seq<int>, r: seq<Book>, s: seq<Book>, x: Book)
    requires Embedding(idx, r, s)
    ensures Embedding(Shifted(idx), r, [x] + s)
  {
  }

  /** A book put in front of both sequences extends an embedding at position 0. */
  lemma EmbeddingCons(idx: seq<int>, r: seq<Book>, s: seq<Book>, x: Book)
    requires Embedding(idx, r, s)
    ensures Embedding([0] + Shifted(idx), [x] + r, [x] + s)
  {
  }

  /** The positions of the books that pass the filter. */
  ghost function FilterPositions(books: seq<Book>, term: string): seq<int> {
    if books == [] then []
    else
      var rest := Shifted(FilterPositions(books[1..], term));
      if Matches(books[0], term) then [0] + rest else rest
  }

  /** The filter keeps its books at the positions it found them, in the same
      relative order: its result is a subsequence of its input. */
  lemma {:induction false} FilterIsSubsequence(books: seq<Book>, term: string)
    ensures Embedding(FilterPositions(books, term), Filter(books, term), books)
    ensures IsSubsequence(Filter(books, term), books)
  {
    if books != [] {
      var tail := books[1..];
      assert books == [books[0]] + tail;
      FilterIsSubsequence(tail, term);
      if Matches(books[0], term) {
        EmbeddingCons(FilterPositions(tail, term), Filter(tail, term), tail, books[0]);
      } else {
        EmbeddingShift(FilterPositions(tail, term), Filter(tail, term), tail, books[0]);
      }
    }
  }

  /** The filter never adds a book and never repeats one more often than the
      catalog holds it. */
  lemma {:induction false} FilterSubMultiset(books: seq<Book>, term: string)
    ensures multiset(Filter(books, term)) <= multiset(books)
  {
    if books != [] {
      var tail := books[1..];
      FilterSubMultiset(tail, term);
      assert books == [books[0]] + tail;
      assert multiset(books) == multiset([books[0]]) + multiset(tail);
      if Matches(books[0], term) {
        assert multiset(Filter(books, term)) == multiset([books[0]]) + multiset(Filter(tail, term));
      }
    }
  }

  /** The filter keeps every copy of a matching book and no copy of any
      other: it counts each book as often as the catalog does if the book
      matches, and never otherwise. */
  lemma {:induction false} FilterCount(books: seq<Book>, term: string, b: Book)
    ensures multiset(Filter(books, term))[b] == if Matches(b, term) then multiset(books)[b] else 0
  {
    if books != [] {
      var tail := books[1..];
      FilterCount(tail, term, b);
      assert books == [books[0]] + tail;
      assert multiset(books) == multiset([books[0]]) + multiset(tail);
      if Matches(books[0], term) {
        assert multiset(Filter(books, term)) == multiset([books[0]]) + multiset(Filter(tail, term));
      }
    }
  }

  /** The positions the filter keeps are exactly those of the matching books. */
  lemma {:induction false} FilterPositionsExact(books: seq<Book>, term: string, k: int)
    requires 0 <= k < |books|
    ensures k in FilterPositions(books, term) <==> Matches(books[k], term)
  {
    var rest := FilterPositions(books[1..], term);
    if k == 0 {
      assert forall j :: 0 <= j < |Shifted(rest)| ==> Shifted(rest)[j] != 0 by {
        FilterPositionsNonNegative(books[1..], term);
      }
    } else {
      FilterPositionsExact(books[1..], term, k - 1);
      assert k - 1 in rest <==> k in Shifted(rest) by {
        if k - 1 in rest {
          var j :| 0 <= j < |rest| && rest[j] == k - 1;
          assert Shifted(rest)[j] == k;
        }
        if k in Shifted(rest) {
          var j :| 0 <= j < |Shifted(rest)| && Shifted(rest)[j] == k;
          assert rest[j] == k - 1;
        }
      }
    }
  }

  lemma {:induction false} FilterPositionsNonNegative(books: seq<Book>, term: string)
    ensures forall j :: 0 <= j < |FilterPositions(books, term)| ==> FilterPositions(books, term)[j] >= 0
  {
    if books != [] {
      FilterPositionsNonNegative(books[1..], term);
    }
  }

  /** Every catalog book that satisfies the predicate appears in the result. */
  lemma {:induction false} FilterComplete(books: seq<Book>, term: string, b: Book)
    requires b in books && Matches(b, term)
    ensures b in Filter(books, term)
  {
    if books[0] != b {
      FilterComplete(books[1..], term, b);
    }
  }

  /** Membership in the filter's result, both directions. */
  lemma {:induction false} FilterMembership(books: seq<Book>, term: string, b: Book)
    ensures b in Filter(books, term) <==> b in books && Matches(b, term)
  {
    if b in books && Matches(b, term) {
      FilterComplete(books, term, b);
    }
  }

  /** When every book satisfies the predicate the filter returns the catalog
      itself, in the same order. */
  lemma {:induction false} FilterKeepsAll(books: seq<Book>, term: string)
    requires forall k :: 0 <= k < |books| ==> Matches(books[k], term)
    ensures Filter(books, term) == books
  {
    if books != [] {
      FilterKeepsAll(books[1..], term);
    }
  }

  /** Filtering a filtered sequence again with the same term changes nothing. */
  lemma {:induction false} FilterIdempotent(books: seq<Book>, term: string)
    ensures Filter(Filter(books, term), term) == Filter(books, term)
  {
    FilterKeepsAll(Filter(books, term), term);
  }

  /* ---------------------------------------------------------------------
     The search handler
     --------------------------------------------------------------------- */

  /** A book is in the search result exactly when it is in the catalog and its
      lower-cased title, or one of its lower-cased tags, includes the
      lower-cased query. */
  lemma SearchMembership(allBooks: seq<Book>, query: string, b: Book)
    ensures b in Search(allBooks, query) <==>
              b in allBooks
              && (Contains(Lower(b.title), Lower(query))
                  || exists i :: 0 <= i < |b.tags| && Contains(Lower(b.tags[i]), Lower(query)))
  {
    FilterMembership(allBooks, Lower(query), b);
  }

  /** The search result is a subsequence of the catalog and adds or repeats
      nothing. */
  lemma SearchIsSubsequence(allBooks: seq<Book>, query: string)
    ensures IsSubsequence(Search(allBooks, query), allBooks)
    ensures multiset(Search(allBooks, query)) <= multiset(allBooks)
  {
    FilterIsSubsequence(allBooks, Lower(query));
    FilterSubMultiset(allBooks, Lower(query));
  }

  /** The empty query keeps the whole catalog, in its original order. */
  lemma SearchEmptyQuery(allBooks: seq<Book>)
    ensures Search(allBooks, "") == allBooks
  {
    assert Lower("") == "";
    forall k | 0 <= k < |allBooks| ensures Matches(allBooks[k], "") {
      ContainsEmpty(Lower(allBooks[k].title));
    }
    FilterKeepsAll(allBooks, "");
  }

  /** Searching a query or its upper-cased form gives the same result. */
  lemma SearchCaseInsensitive(allBooks: seq<Book>, query: string)
    ensures Search(allBooks, Upper(query)) == Search(allBooks, query)
  {
    LowerOfUpper(query);
  }

  /** Before the catalog has loaded every query finds nothing. */
  lemma SearchEmptyCatalog(query: string)
    ensures Rendered(Search([], query)) == Message(NoBooksFound)
  {
  }

  /** After a search the grid shows a book exactly when it matches, and shows
      the "No books found." message exactly when nothing does. */
  lemma SearchGrid(allBooks: seq<Book>, query: string, b: Book)
    ensures b in Shown(Rendered(Search(allBooks, query))) <==>
              b in allBooks && Matches(b, Lower(query))
    ensures Rendered(Search(allBooks, query)) == Message(NoBooksFound) <==>
              forall k :: 0 <= k < |allBooks| ==> !Matches(allBooks[k], Lower(query))
  {
    FilterMembership(allBooks, Lower(query), b);
    if Search(allBooks, query) == [] {
      forall k | 0 <= k < |allBooks| ensures !Matches(allBooks[k], Lower(query)) {
        FilterMembership(allBooks, Lower(query), allBooks[k]);
      }
    } else {
      var c := Search(allBooks, query)[0];
      assert c in allBooks && Matches(c, Lower(query));
    }
  }

  /* The two-book catalog example: a tag match, a case-insensitive title
     match, and a query that matches nothing. */

  const Atlas := Book("Atlas", "", "", "", ["maps"])
  const Borealis := Book("Borealis", "", "", "", ["sky", "light"])

  lemma ExampleLowered()
    ensures Lower("Atlas") == "atlas" && Lower("maps") == "maps"
    ensures Lower("Borealis") == "borealis" && Lower("sky") == "sky" && Lower("light") == "light"
    ensures Lower("atlas") == "atlas" && Lower("zzz") == "zzz"
  {
  }

  lemma MatchesOneTag(b: Book, term: string)
    requires |b.tags| == 1
    ensures Matches(b, term) <==>
              Contains(Lower(b.title), term) || Contains(Lower(b.tags[0]), term)
  {
  }

  lemma MatchesTwoTags(b: Book, term: string)
    requires |b.tags| == 2
    ensures Matches(b, term) <==>
              || Contains(Lower(b.title), term)
              || Contains(Lower(b.tags[0]), term)
              || Contains(Lower(b.tags[1]), term)
  {
  }

  lemma ExampleMissesLight()
    ensures !Contains("atlas", "light") && !Contains("maps", "light")
  {
    NotContainsByFirstChar("atlas", "light");
    NotContainsByFirstChar("maps", "light");
  }

  lemma ExampleMissesAtlas()
    ensures !Contains("borealis", "atlas") && !Contains("sky", "atlas") && !Contains("light", "atlas")
  {
    NotContainsByFirstChar("borealis", "atlas");
    NotContainsByFirstChar("sky", "atlas");
    NotContainsByFirstChar("light", "atlas");
  }

  lemma ExampleMissesZzz()
    ensures !Contains("atlas", "zzz") && !Contains("maps", "zzz")
    ensures !Contains("borealis", "zzz") && !Contains("sky", "zzz") && !Contains("light", "zzz")
  {
    NotContainsByFirstChar("atlas", "zzz");
    NotContainsByFirstChar("maps", "zzz");
    NotContainsByFirstChar("borealis", "zzz");
    NotContainsByFirstChar("sky", "zzz");
    NotContainsByFirstChar("light", "zzz");
  }

  /** Filtering the two-book catalog, one book at a time. */
  lemma FilterExample(term: string)
    ensures Filter([Atlas, Borealis], term) ==
              (if Matches(Atlas, term) then [Atlas] else [])
              + (if Matches(Borealis, term) then [Borealis] else [])
  {
    assert [Atlas, Borealis][1..] == [Borealis];
    assert [Borealis][1..] == [];
  }

  /** "light" finds only Borealis, through its tag. */
  lemma SearchExampleTag()
    ensures Search([Atlas, Borealis], "light") == [Borealis]
  {
    ExampleLowered();
    ExampleMissesLight();
    MatchesOneTag(Atlas, "light");
    MatchesTwoTags(Borealis, "light");
    assert IsPrefix("light", "light");
    FilterExample("light");
  }

  /** "atlas" finds only Atlas, through its title. */
  lemma SearchExampleTitle()
    ensures Search([Atlas, Borealis], "atlas") == [Atlas]
  {
    ExampleLowered();
    ExampleMissesAtlas();
    MatchesOneTag(Atlas, "atlas");
    MatchesTwoTags(Borealis, "atlas");
    assert IsPrefix("atlas", "atlas");
    FilterExample("atlas");
  }

  /** "zzz" finds nothing, and the grid shows the "No books found." message. */
  lemma SearchExampleNone()
    ensures Rendered(Search([Atlas, Borealis], "zzz")) == Message(NoBooksFound)
  {
    ExampleLowered();
    ExampleMissesZzz();
    MatchesOneTag(Atlas, "zzz");
    MatchesTwoTags(Borealis, "zzz");
    FilterExample("zzz");
  }
}
