/** The book record and the operations on a list of books that do not change
    it (search and the read/unread statistics), together with the functions
    that say what the catalog's updates do to the list. */
module Books {
  import opened Text

  /** One library entry; it has no identity beyond its position in the list. */
  datatype Book = Book(title: string, author: string, year: int, genre: string, read: bool, addedDate: string)

  /** The fields a search may look at. */
  datatype Field = Title | Author | Genre

  /** The record lookup `book[search_by]` for the three keys a search offers. */
  function FieldOf(b: Book, f: Field): (r: string)
    ensures f == Title ==> r == b.title
    ensures f == Author ==> r == b.author
    ensures f == Genre ==> r == b.genre
  {
    match f
    case Title => b.title
    case Author => b.author
    case Genre => b.genre
  }

  /** The search test: the lower-cased field contains the lower-cased term. */
  predicate Matches(b: Book, term: string, f: Field)
    ensures Matches(b, term, f) <==> exists k :: OccursAt(Lower(FieldOf(b, f)), Lower(term), k)
  {
    ContainsIff(Lower(FieldOf(b, f)), Lower(term));
    assert Contains(Lower(FieldOf(b, f)), Lower(term)) <==> exists k :: OccursAt(Lower(FieldOf(b, f)), Lower(term), k);
    Contains(Lower(FieldOf(b, f)), Lower(term))
  }

  // ---------------------------------------------------------------------------
  // Search

  /** The books whose field `f` contains `term`, ignoring case, in library order. */
  function Search(books: seq<Book>, term: string, f: Field): (r: seq<Book>)
    ensures |r| <= |books|
    ensures forall b :: b in r ==> b in books && Matches(b, term, f)
  {
    if books == [] then []
    else if Matches(books[0], term, f) then [books[0]] + Search(books[1..], term, f)
    else Search(books[1..], term, f)
  }

  /** A book is found exactly when it is in the library and matches. */
  lemma {:induction false} SearchMembership(books: seq<Book>, term: string, f: Field, b: Book)
    ensures b in Search(books, term, f) <==> b in books && Matches(b, term, f)
  {
    if books != [] {
      SearchMembership(books[1..], term, f, b);
      assert books == [books[0]] + books[1..];
    }
  }

  /** Searching a concatenation searches each part and keeps them in order. */
  lemma {:induction false} SearchAppend(xs: seq<Book>, ys: seq<Book>, term: string, f: Field)
    ensures Search(xs + ys, term, f) == Search(xs, term, f) + Search(ys, term, f)
  {
    if xs == [] {
      assert xs + ys == ys;
    } else {
      assert (xs + ys)[0] == xs[0];
      assert (xs + ys)[1..] == xs[1..] + ys;
      SearchAppend(xs[1..], ys, term, f);
    }
  }

  /** `xs` is `ys` with some elements dropped and the rest in their original order. */
  ghost predicate IsSubsequence(xs: seq<Book>, ys: seq<Book>)
    decreases |ys|
  {
    if xs == [] then true
    else if ys == [] then false
    else (xs[0] == ys[0] && IsSubsequence(xs[1..], ys[1..])) || IsSubsequence(xs, ys[1..])
  }

  /** The search result is a subsequence of the library. */
  lemma {:induction false} SearchIsSubsequence(books: seq<Book>, term: string, f: Field)
    ensures IsSubsequence(Search(books, term, f), books)
  {
    if books != [] {
      SearchIsSubsequence(books[1..], term, f);
      var r := Search(books, term, f);
      if Matches(books[0], term, f) {
        assert r[0] == books[0] && r[1..] == Search(books[1..], term, f);
      }
    }
  }

  /** When every book matches, the search returns the whole library. */
  lemma {:induction false} SearchAllMatch(books: seq<Book>, term: string, f: Field)
    requires forall i :: 0 <= i < |books| ==> Matches(books[i], term, f)
    ensures Search(books, term, f) == books
  {
    if books != [] {
      var tail := books[1..];
      forall i | 0 <= i < |tail|
        ensures Matches(tail[i], term, f)
      {
        assert tail[i] == books[i + 1];
      }
      SearchAllMatch(tail, term, f);
      assert Matches(books[0], term, f);
    }
  }

  /** The empty term matches every book, so it returns the whole library. */
  lemma SearchEmptyTerm(books: seq<Book>, f: Field)
    ensures Search(books, [], f) == books
  {
    forall i | 0 <= i < |books|
      ensures Matches(books[i], [], f)
    {
      ContainsEmpty(Lower(FieldOf(books[i], f)));
    }
    SearchAllMatch(books, [], f);
  }

  /** The case of the term does not matter. */
  lemma {:induction false} SearchCaseInsensitive(books: seq<Book>, term: string, f: Field)
    ensures Search(books, Lower(term), f) == Search(books, term, f)
  {
    if books != [] {
      LowerIdempotent(term);
      SearchCaseInsensitive(books[1..], term, f);
    }
  }

  // ---------------------------------------------------------------------------
  // Statistics

  /** The number of books marked read. */
  function ReadCount(books: seq<Book>): (n: int)
    ensures 0 <= n <= |books|
    ensures n == 0 <==> forall i :: 0 <= i < |books| ==> !books[i].read
    ensures n == |books| <==> forall i :: 0 <= i < |books| ==> books[i].read
  {
    if books == [] then 0
    else
      var tail := books[1..];
      assert forall i :: 1 <= i < |books| ==> books[i] == tail[i - 1];
      (if books[0].read then 1 else 0) + ReadCount(tail)
  }

  /** The number of books not marked read, counted on its own: the reference
      that `StatisticsUnread` compares the page's "total minus read" against. */
  function UnreadCount(books: seq<Book>): (n: int)
    ensures 0 <= n <= |books|
  {
    if books == [] then 0
    else (if books[0].read then 0 else 1) + UnreadCount(books[1..])
  }

  /** Every book is either read or unread. */
  lemma {:induction false} ReadUnreadPartition(books: seq<Book>)
    ensures ReadCount(books) + UnreadCount(books) == |books|
  {
    if books != [] {
      ReadUnreadPartition(books[1..]);
    }
  }

  /** Counting is additive over concatenation. */
  lemma {:induction false} ReadCountAppend(xs: seq<Book>, ys: seq<Book>)
    ensures ReadCount(xs + ys) == ReadCount(xs) + ReadCount(ys)
  {
    if xs == [] {
      assert xs + ys == ys;
    } else {
      assert (xs + ys)[0] == xs[0];
      assert (xs + ys)[1..] == xs[1..] + ys;
      ReadCountAppend(xs[1..], ys);
    }
  }

  /** The figures on the statistics page. */
  datatype Stats = Stats(total: int, read: int, unread: int)

  function Statistics(books: seq<Book>): (s: Stats)
    ensures s.total == |books|
    ensures 0 <= s.read <= s.total && s.unread == s.total - s.read
    ensures s.read == 0 <==> forall i :: 0 <= i < |books| ==> !books[i].read
  {
    var total := |books|;
    var read := ReadCount(books);
    Stats(total, read, total - read)
  }

  /** The unread figure, computed as total minus read, is the number of unread books. */
  lemma StatisticsUnread(books: seq<Book>)
    ensures Statistics(books).unread == UnreadCount(books)
  {
    ReadUnreadPartition(books);
  }

  // ---------------------------------------------------------------------------
  // What the catalog's updates do to the list

  /** Deleting position `index`; an index out of range changes nothing. */
  function RemoveAt(books: seq<Book>, index: int): (r: seq<Book>)
    ensures 0 <= index < |books| ==>
      && |r| == |books| - 1
      && (forall j :: 0 <= j < index ==> r[j] == books[j])
      && (forall j :: index <= j < |r| ==> r[j] == books[j + 1])
    ensures !(0 <= index < |books|) ==> r == books
  {
    if 0 <= index < |books| then books[..index] + books[index + 1..] else books
  }

  /** Removal takes out exactly the one book at `index`. */
  lemma RemoveAtMultiset(books: seq<Book>, index: int)
    requires 0 <= index < |books|
    ensures multiset(RemoveAt(books, index)) + multiset{books[index]} == multiset(books)
  {
    assert books == books[..index] + [books[index]] + books[index + 1..];
  }

  /** Flipping the read flag of the book at `index`. */
  function ToggleAt(books: seq<Book>, index: int): (r: seq<Book>)
    requires 0 <= index < |books|
    ensures |r| == |books|
    ensures r[index].read == !books[index].read
    ensures r[index] == books[index].(read := r[index].read)
    ensures forall j :: 0 <= j < |books| && j != index ==> r[j] == books[j]
  {
    books[index := books[index].(read := !books[index].read)]
  }

  /** Toggling twice restores the library. */
  lemma ToggleAtTwice(books: seq<Book>, index: int)
    requires 0 <= index < |books|
    ensures ToggleAt(ToggleAt(books, index), index) == books
  {
  }

  /** Adding a book raises the read count by one exactly when it is marked read. */
  lemma ReadCountAfterAdd(books: seq<Book>, b: Book)
    ensures ReadCount(books + [b]) == ReadCount(books) + (if b.read then 1 else 0)
  {
    ReadCountAppend(books, [b]);
  }

  /** The read count of a list is that of the books before `index`, the book at
      `index` and the books after it. */
  lemma ReadCountSplit(books: seq<Book>, index: int)
    requires 0 <= index < |books|
    ensures ReadCount(books) ==
      ReadCount(books[..index]) + (if books[index].read then 1 else 0) + ReadCount(books[index + 1..])
  {
    var rest := books[index..];
    assert books == books[..index] + rest;
    assert rest[0] == books[index] && rest[1..] == books[index + 1..];
    ReadCountAppend(books[..index], rest);
  }

  /** Removing a book lowers the read count by one exactly when it was marked read. */
  lemma ReadCountAfterRemove(books: seq<Book>, index: int)
    requires 0 <= index < |books|
    ensures ReadCount(RemoveAt(books, index)) == ReadCount(books) - (if books[index].read then 1 else 0)
  {
    ReadCountSplit(books, index);
    ReadCountAppend(books[..index], books[index + 1..]);
  }

  /** Toggling moves one book between the read and the unread count. */
  lemma ReadCountAfterToggle(books: seq<Book>, index: int)
    requires 0 <= index < |books|
    ensures ReadCount(ToggleAt(books, index)) == ReadCount(books) + (if books[index].read then -1 else 1)
  {
    var toggled := ToggleAt(books, index);
    assert toggled[..index] == books[..index];
    assert toggled[index + 1..] == books[index + 1..];
    ReadCountSplit(books, index);
    ReadCountSplit(toggled, index);
  }
}
