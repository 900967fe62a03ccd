/** The in-memory library the page works on: an ordered list of books that
    the add form, the Remove and Toggle buttons change in place. */
module Library {
  import opened Books

  /** The two options of the read-status radio button on the add form. */
  datatype ReadChoice = MarkedRead | MarkedUnread

  class Catalog {
    /** The books in insertion order, which is also display order. */
    var books: seq<Book>

    /** A catalog holding the list that was loaded at start-up. */
    constructor (loaded: seq<Book>)
      ensures books == loaded
    {
      books := loaded;
    }

    /** Appends a new record; `addedDate` is the creation timestamp. */
    method Add(title: string, author: string, year: int, genre: string, read: bool, addedDate: string)
      modifies this
      ensures books == old(books) + [Book(title, author, year, genre, read, addedDate)]
      ensures |books| == |old(books)| + 1 && books[..|old(books)|] == old(books)
    {
      var newBook := Book(title, author, year, genre, read, addedDate);
      books := books + [newBook];
    }

    /** Deletes the book at `index` when the index is in range, else does nothing. */
    method Remove(index: int)
      modifies this
      ensures books == RemoveAt(old(books), index)
    {
      if 0 <= index < |books| {
        books := books[..index] + books[index + 1..];
      }
    }

    /** The Toggle Read Status button of the book shown at `index`. */
    method ToggleRead(index: int)
      requires 0 <= index < |books|
      modifies this
      ensures books == ToggleAt(old(books), index)
    {
      var book := books[index];
      books := books[index := book.(read := !book.read)];
    }

    /** The add form's submit: a book is added only when title and author are both given. */
    method SubmitAdd(title: string, author: string, year: int, genre: string, choice: ReadChoice, addedDate: string)
      returns (added: bool)
      modifies this
      ensures added <==> title != [] && author != []
      ensures added ==> books == old(books) + [Book(title, author, year, genre, choice == MarkedRead, addedDate)]
      ensures !added ==> books == old(books)
    {
      added := title != [] && author != [];
      if added {
        Add(title, author, year, genre, choice == MarkedRead, addedDate);
      }
    }
  }
}
