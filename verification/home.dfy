/**
 * The book list page: its `books` state, the search that narrows it and the
 * toggle that flips one book's "read" flag.
 */
module Home {
  import opened JsString

  // ---------------------------------------------------------------------
  // Data model
  // ---------------------------------------------------------------------

  /** `publishYear` as the backend sends it: a number or a numeric string. */
  datatype Year = Num(value: int) | Str(text: string)

  /** `publishYear.toString()`: a string is its own string form. */
  function YearText(y: Year): (r: string)
    ensures y.Str? ==> r == y.text
    ensures y.Num? ==> |r| >= 1 && (r[0] == '-' <==> y.value < 0)
    ensures y.Num? ==> forall i :: 0 <= i < |r| ==> !IsUpper(r[i])
  {
    match y
    case Num(n) => IntToString(n)
    case Str(s) => s
  }

  /** One record of the `books` state; `read` is the string flag of the wire format. */
  datatype Book = Book(id: string, title: string, author: string, publishYear: Year, read: string)

  /** How the table shows the flag: only the exact text "true" reads as "Yes". */
  predicate IsRead(read: string) {
    read == "true"
  }

  // ---------------------------------------------------------------------
  // Array.prototype.filter
  // ---------------------------------------------------------------------

  /** The elements of `s` that `keep` accepts, in their original order. */
  function Filter(s: seq<Book>, keep: Book -> bool): (r: seq<Book>)
    ensures |r| <= |s|
    ensures forall x :: x in r <==> x in s && keep(x)
  {
    if s == [] then [] else (if keep(s[0]) then [s[0]] else []) + Filter(s[1..], keep)
  }

  /** Each kept element occurs as often as in `s`; each dropped one not at all. */
  lemma {:induction false} FilterCount(s: seq<Book>, keep: Book -> bool, x: Book)
    ensures multiset(Filter(s, keep))[x] == if keep(x) then multiset(s)[x] else 0
    decreases |s|
  {
    if s != [] {
      FilterCount(s[1..], keep, x);
      assert s == [s[0]] + s[1..];
    }
  }

  /** `r` can be obtained from `s` by deleting elements. */
  predicate IsSubsequence(r: seq<Book>, s: seq<Book>)
    decreases |s|
  {
    if r == [] then true
    else if s == [] then false
    else if r[0] == s[0] then IsSubsequence(r[1..], s[1..])
    else IsSubsequence(r, s[1..])
  }

  /** Putting an element in front of `s` keeps every subsequence of `s` one. */
  lemma {:induction false} SubsequenceOfTail(r: seq<Book>, x: Book, s: seq<Book>)
    requires IsSubsequence(r, s)
    ensures IsSubsequence(r, [x] + s)
    decreases |s|, 1
  {
    if r != [] {
      assert ([x] + s)[1..] == s;
      if r[0] == x {
        SubsequenceShrink(r, s);
      }
    }
  }

  /** Dropping the first element of a subsequence leaves a subsequence. */
  lemma {:induction false} SubsequenceShrink(r: seq<Book>, s: seq<Book>)
    requires r != [] && IsSubsequence(r, s)
    ensures IsSubsequence(r[1..], s)
    decreases |s|, 0
  {
    if r[0] != s[0] {
      SubsequenceShrink(r, s[1..]);
    }
    if r[1..] != [] {
      SubsequenceOfTail(r[1..], s[0], s[1..]);
      assert [s[0]] + s[1..] == s;
    }
  }

  /** Filtering keeps the original order and invents nothing. */
  lemma {:induction false} FilterIsSubsequence(s: seq<Book>, keep: Book -> bool)
    ensures IsSubsequence(Filter(s, keep), s)
    decreases |s|
  {
    if s != [] {
      var rest := Filter(s[1..], keep);
      FilterIsSubsequence(s[1..], keep);
      if keep(s[0]) {
        assert Filter(s, keep) == [s[0]] + rest;
        assert ([s[0]] + rest)[1..] == rest;
      } else {
        assert Filter(s, keep) == rest;
        SubsequenceOfTail(rest, s[0], s[1..]);
        assert [s[0]] + s[1..] == s;
      }
    }
  }

  /** Filtering twice keeps exactly what both predicates accept. */
  lemma {:induction false} FilterTwice(s: seq<Book>, p: Book -> bool, q: Book -> bool, both: Book -> bool)
    requires forall x :: both(x) == (p(x) && q(x))
    ensures Filter(Filter(s, p), q) == Filter(s, both)
    decreases |s|
  {
    if s != [] {
      FilterTwice(s[1..], p, q, both);
      var inner := Filter(s[1..], p);
      assert Filter(s, both) == (if both(s[0]) then [s[0]] else []) + Filter(s[1..], both);
      if p(s[0]) {
        assert Filter(s, p) == [s[0]] + inner;
        assert ([s[0]] + inner)[1..] == inner;
        assert Filter([s[0]] + inner, q) == (if q(s[0]) then [s[0]] else []) + Filter(inner, q);
      } else {
        assert Filter(s, p) == inner;
      }
    }
  }

  /** Filtering with a predicate that accepts everything in `s` returns `s`. */
  lemma {:induction false} FilterKeepsAll(s: seq<Book>, keep: Book -> bool)
    requires forall i :: 0 <= i < |s| ==> keep(s[i])
    ensures Filter(s, keep) == s
    decreases |s|
  {
    if s != [] {
      FilterKeepsAll(s[1..], keep);
      assert [s[0]] + s[1..] == s;
    }
  }

  // ---------------------------------------------------------------------
  // handleSearch
  // ---------------------------------------------------------------------

  /**
   * The filter callback of `handleSearch`: the term, lower-cased, occurs in the
   * lower-cased title or author, or the term as typed occurs in the year's text.
   */
  predicate Matches(b: Book, term: string)
    ensures term == "" ==> Matches(b, term)
  {
    Contains(Lower(b.title), Lower(term))
    || Contains(Lower(b.author), Lower(term))
    || Contains(YearText(b.publishYear), term)
  }

  /** The list `handleSearch` computes from the current books. */
  function Search(books: seq<Book>, term: string): (r: seq<Book>)
    ensures |r| <= |books|
    ensures forall b :: b in r <==> b in books && Matches(b, term)
  {
    Filter(books, b => Matches(b, term))
  }

  /** A matching book is kept as many times as it occurs; a non-matching one is dropped. */
  lemma SearchCount(books: seq<Book>, term: string, b: Book)
    ensures multiset(Search(books, term))[b] == if Matches(b, term) then multiset(books)[b] else 0
  {
    FilterCount(books, x => Matches(x, term), b);
  }

  /** The search result keeps the order of the current list. */
  lemma SearchIsSubsequence(books: seq<Book>, term: string)
    ensures IsSubsequence(Search(books, term), books)
  {
    FilterIsSubsequence(books, b => Matches(b, term));
  }

  /** A book whose title or author contains the term verbatim is found. */
  lemma MatchesVerbatim(b: Book, term: string)
    requires Contains(b.title, term) || Contains(b.author, term)
    ensures Matches(b, term)
  {
    if Contains(b.title, term) {
      LowerPreservesContains(b.title, term);
    } else {
      LowerPreservesContains(b.author, term);
    }
  }

  /** The empty term keeps every book. */
  lemma SearchEmptyTerm(books: seq<Book>)
    ensures Search(books, "") == books
  {
    FilterKeepsAll(books, b => Matches(b, ""));
  }

  /** The book matches every one of `terms`. */
  predicate MatchesAll(b: Book, terms: seq<string>) {
    forall i :: 0 <= i < |terms| ==> Matches(b, terms[i])
  }

  /** Reference definition: the books of `books` that match all of `terms` at once. */
  function SearchAll(books: seq<Book>, terms: seq<string>): (r: seq<Book>)
    ensures forall b :: b in r <==> b in books && MatchesAll(b, terms)
  {
    Filter(books, b => MatchesAll(b, terms))
  }

  /** With no term searched yet, the reference result is the whole list. */
  lemma SearchAllNone(books: seq<Book>)
    ensures SearchAll(books, []) == books
  {
    FilterKeepsAll(books, b => MatchesAll(b, []));
  }

  /** Searching the already-narrowed list intersects: one more term, same original list. */
  lemma SearchNarrows(books: seq<Book>, terms: seq<string>, term: string)
    ensures Search(SearchAll(books, terms), term) == SearchAll(books, terms + [term])
  {
    var ts := terms + [term];
    forall b: Book ensures MatchesAll(b, ts) == (MatchesAll(b, terms) && Matches(b, term)) {
      assert ts[|terms|] == term;
      assert forall i :: 0 <= i < |terms| ==> ts[i] == terms[i];
    }
    FilterTwice(books, b => MatchesAll(b, terms), b => Matches(b, term), b => MatchesAll(b, ts));
  }

  /** Two searches in a row give the books of the original list matching both terms. */
  lemma SearchTwice(books: seq<Book>, t1: string, t2: string)
    ensures Search(Search(books, t1), t2) == SearchAll(books, [t1, t2])
  {
    SearchAllNone(books);
    SearchNarrows(books, [], t1);
    assert [] + [t1] == [t1];
    SearchNarrows(books, [t1], t2);
    assert [t1] + [t2] == [t1, t2];
  }

  /** The order of two searches does not matter. */
  lemma SearchCommutes(books: seq<Book>, t1: string, t2: string)
    ensures Search(Search(books, t1), t2) == Search(Search(books, t2), t1)
  {
    FilterTwice(books, b => Matches(b, t1), b => Matches(b, t2), b => Matches(b, t1) && Matches(b, t2));
    FilterTwice(books, b => Matches(b, t2), b => Matches(b, t1), b => Matches(b, t1) && Matches(b, t2));
  }

  /** Repeating a search changes nothing. */
  lemma SearchIdempotent(books: seq<Book>, term: string)
    ensures Search(Search(books, term), term) == Search(books, term)
  {
    FilterTwice(books, b => Matches(b, term), b => Matches(b, term), b => Matches(b, term));
  }

  /** Example: searching "her" keeps "Dune" by Herbert and drops "Emma" by Austen. */
  lemma SearchExample()
    ensures
      var dune := Book("1", "Dune", "Herbert", Num(1965), "false");
      var emma := Book("2", "Emma", "Austen", Num(1815), "true");
      Search([dune, emma], "her") == [dune]
  {
    var dune := Book("1", "Dune", "Herbert", Num(1965), "false");
    var emma := Book("2", "Emma", "Austen", Num(1815), "true");
    ExampleDuneMatches(dune);
    ExampleEmmaDoesNotMatch(emma);
    SearchKeepsFirstOfTwo(dune, emma, "her");
  }

  /** Of two books, only the first of which matches, the search keeps the first. */
  lemma SearchKeepsFirstOfTwo(a: Book, b: Book, term: string)
    requires Matches(a, term) && !Matches(b, term)
    ensures Search([a, b], term) == [a]
  {
    SearchCons(b, [], term);
    assert [b] + [] == [b];
    SearchCons(a, [b], term);
    assert [a] + [b] == [a, b];
  }

  /** The search decides the first book on its own and then searches the rest. */
  lemma SearchCons(b: Book, rest: seq<Book>, term: string)
    ensures Search([b] + rest, term) == (if Matches(b, term) then [b] else []) + Search(rest, term)
  {
    assert ([b] + rest)[1..] == rest;
  }

  lemma ExampleDuneMatches(dune: Book)
    requires dune == Book("1", "Dune", "Herbert", Num(1965), "false")
    ensures Matches(dune, "her")
  {
    LowerFixesNonUpper("her");
    var author := Lower("Herbert");
    assert author[0] == 'h' && author[1] == 'e' && author[2] == 'r';
    assert author[..3] == "her";
    assert StartsWith(author, "her");
  }

  lemma ExampleEmmaDoesNotMatch(emma: Book)
    requires emma == Book("2", "Emma", "Austen", Num(1815), "true")
    ensures !Matches(emma, "her")
  {
    LowerFixesNonUpper("her");
    LowerLacksH("Emma");
    LowerLacksH("Austen");
    NoLetterH(YearText(emma.publishYear));
  }

  /** Lowering a string that has no 'h' or 'H' gives one without "her". */
  lemma LowerLacksH(s: string)
    requires forall i :: 0 <= i < |s| ==> s[i] != 'h' && s[i] != 'H'
    ensures !Contains(Lower(s), "her")
  {
    NoLetterH(Lower(s));
  }

  /** A string without the letter 'h' does not contain "her". */
  lemma {:induction false} NoLetterH(s: string)
    requires forall i :: 0 <= i < |s| ==> s[i] != 'h'
    ensures !Contains(s, "her")
    decreases |s|
  {
    assert !StartsWith(s, "her") by {
      if |s| >= 3 {
        assert s[..3][0] == s[0];
      }
    }
    if s != [] {
      NoLetterH(s[1..]);
    }
  }

  // ---------------------------------------------------------------------
  // toggleRead
  // ---------------------------------------------------------------------

  /** The string test of `toggleRead`: exactly "true" becomes "false", anything else "true". */
  function FlipRead(read: string): (r: string)
    ensures IsRead(r) == !IsRead(read)
    ensures r == "true" || r == "false"
    ensures r != read
  {
    if read == "true" then "false" else "true"
  }

  /** Flipping twice restores exactly the two well-formed flags. */
  lemma FlipTwice(read: string)
    ensures FlipRead(FlipRead(read)) == read <==> read == "true" || read == "false"
  {
  }

  /** The map callback of `toggleRead`: a copy with `read` flipped when the id matches. */
  function ToggleBook(b: Book, id: string): (r: Book)
    ensures r.id == b.id && r.title == b.title && r.author == b.author && r.publishYear == b.publishYear
    ensures b.id != id ==> r == b
    ensures b.id == id ==> IsRead(r.read) == !IsRead(b.read) && r.read == FlipRead(b.read)
  {
    if b.id == id then b.(read := FlipRead(b.read)) else b
  }

  /** The list `toggleRead` computes from the current books. */
  function Toggle(books: seq<Book>, id: string): (r: seq<Book>)
    ensures |r| == |books|
    ensures forall i :: 0 <= i < |books| && books[i].id != id ==> r[i] == books[i]
    ensures forall i :: 0 <= i < |books| && books[i].id == id ==>
      r[i].id == books[i].id && r[i].title == books[i].title && r[i].author == books[i].author
      && r[i].publishYear == books[i].publishYear && IsRead(r[i].read) == !IsRead(books[i].read)
      && r[i].read == FlipRead(books[i].read)
  {
    if books == [] then [] else [ToggleBook(books[0], id)] + Toggle(books[1..], id)
  }

  /** Toggling leaves the list as it was exactly when no book carries the id. */
  lemma ToggleUnchanged(books: seq<Book>, id: string)
    ensures Toggle(books, id) == books <==> forall i :: 0 <= i < |books| ==> books[i].id != id
  {
    if Toggle(books, id) == books {
      forall i | 0 <= i < |books| ensures books[i].id != id {
      }
    }
  }

  /** Toggling twice restores the list exactly when every book with the id holds a well-formed flag. */
  lemma ToggleTwice(books: seq<Book>, id: string)
    ensures Toggle(Toggle(books, id), id) == books
        <==> forall i :: 0 <= i < |books| && books[i].id == id ==> books[i].read == "true" || books[i].read == "false"
  {
    var twice := Toggle(Toggle(books, id), id);
    forall i | 0 <= i < |books| && books[i].id == id
      ensures twice[i].read == FlipRead(FlipRead(books[i].read))
    {
    }
    if forall i :: 0 <= i < |books| && books[i].id == id ==> books[i].read == "true" || books[i].read == "false" {
      assert forall i :: 0 <= i < |books| ==> twice[i] == books[i];
    }
  }

  /** Toggling does not change which books a search finds. */
  lemma MatchesIgnoresToggle(b: Book, id: string, term: string)
    ensures Matches(ToggleBook(b, id), term) == Matches(b, term)
  {
  }

  /** Toggling commutes with any filter that ignores the flag. */
  lemma {:induction false} ToggleFilterCommute(books: seq<Book>, id: string, keep: Book -> bool)
    requires forall b :: keep(ToggleBook(b, id)) == keep(b)
    ensures Filter(Toggle(books, id), keep) == Toggle(Filter(books, keep), id)
    decreases |books|
  {
    if books != [] {
      ToggleFilterCommute(books[1..], id, keep);
      var tb := Toggle(books, id);
      assert tb == [ToggleBook(books[0], id)] + Toggle(books[1..], id);
      assert tb[0] == ToggleBook(books[0], id) && tb[1..] == Toggle(books[1..], id);
      var rest := Filter(books[1..], keep);
      if keep(books[0]) {
        assert Filter(books, keep) == [books[0]] + rest;
        assert ([books[0]] + rest)[1..] == rest;
      }
    }
  }

  /** Searching after a toggle gives the toggled search result. */
  lemma ToggleSearchCommute(books: seq<Book>, id: string, term: string)
    ensures Search(Toggle(books, id), term) == Toggle(Search(books, term), id)
  {
    ToggleFilterCommute(books, id, b => Matches(b, term));
  }

  /** The narrowed list of several searches commutes with a toggle, too. */
  lemma ToggleSearchAllCommute(books: seq<Book>, id: string, terms: seq<string>)
    ensures SearchAll(Toggle(books, id), terms) == Toggle(SearchAll(books, terms), id)
  {
    ToggleFilterCommute(books, id, b => MatchesAll(b, terms));
  }

  // ---------------------------------------------------------------------
  // The component's state
  // ---------------------------------------------------------------------

  /**
   * The `books` state of the page. `collection` is the list as last received
   * from the backend (with every toggle since applied) and `terms` the searches
   * run since; `books` is always the part of `collection` matching all of them.
   */
  class HomeState {
    var books: seq<Book>
    ghost var collection: seq<Book>
    ghost var terms: seq<string>

    ghost predicate Valid()
      reads this
    {
      books == SearchAll(collection, terms)
    }

    /** `useState([])`: the page starts with no books. */
    constructor ()
      ensures Valid()
      ensures books == [] && collection == [] && terms == []
    {
      books := [];
      collection := [];
      terms := [];
    }

    /** The state update of a successful fetch: the received list replaces the state. */
    method Receive(fetched: seq<Book>)
      modifies this
      ensures Valid()
      ensures books == fetched && collection == fetched && terms == []
    {
      books := fetched;
      collection := fetched;
      terms := [];
      SearchAllNone(fetched);
    }

    /** `handleSearch`: the current list is filtered and replaces the state. */
    method HandleSearch(term: string)
      requires Valid()
      modifies this
      ensures Valid()
      ensures books == Search(old(books), term)
      ensures collection == old(collection) && terms == old(terms) + [term]
    {
      SearchNarrows(collection, terms, term);
      books := Search(books, term);
      terms := terms + [term];
    }

    /** `toggleRead`: the mapped list replaces the state. */
    method ToggleRead(id: string)
      requires Valid()
      modifies this
      ensures Valid()
      ensures books == Toggle(old(books), id)
      ensures collection == Toggle(old(collection), id) && terms == old(terms)
    {
      ToggleSearchAllCommute(collection, id, terms);
      books := Toggle(books, id);
      collection := Toggle(collection, id);
    }
  }
}
