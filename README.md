# Personal library manager: the book catalog

This project models the in-memory book catalog behind the Personal Library
Manager page (`libraryone.py`). The library is an ordered list of flat book
records: title, author, publication year, genre, a read flag and the date the
book was added. Insertion order is display order, and a book is identified by
its position in the list. The page changes the list in three ways:

- the add form appends a record, but only when title and author are filled in;
- the Remove button deletes a position and does nothing when the index is out of range;
- the Toggle Read Status button flips one book's read flag.

It also reads the list in two ways: a case-insensitive substring search over
the title, author or genre, and the read/unread/total figures on the
statistics page.

Files:

- `Text.dfy` (module `Text`) holds the string operations the search uses:
  `str.lower()` as `Lower`, and the substring test `term in field` as
  `Contains`, proved equal to "occurs at some offset".
- `Books.dfy` (module `Books`) holds the `Book` record and the search-field
  choice `Field`, with `Search` and the read counts. It also has `RemoveAt`
  and `ToggleAt`, which say what the updates do to the list, and the lemmas
  about all of these.
- `Catalog.dfy` (module `Library`) holds the `Catalog` class. Its `books`
  field is the session's list, and its methods change that field in place.
  Each method's postcondition gives the new list as a function of the old one.

The source's list comprehension and generator sum are pure, so `Search` and
`ReadCount` are recursive functions. The lemmas describe their results:
membership in both directions, order, subsequence, the empty term, case
insensitivity, additivity, and how each update shifts the read count.

## Model

| member | source | states |
|---|---|---|
| `Library.Catalog.constructor` | libraryone.py:71-74 | the session list starts out as the list that was loaded |
| `Library.Catalog.Add` | libraryone.py:77-90 | the list grows by exactly one; the new last record carries the given title, author, year, genre, read flag and timestamp; every earlier book is unchanged |
| `Library.Catalog.Remove` | libraryone.py:93-99 | the new list is `RemoveAt(old list, index)`: the book at an in-range index is deleted and the others keep their order; an out-of-range index (negative or too large) changes nothing |
| `Library.Catalog.ToggleRead` | libraryone.py:147-150 | the new list is `ToggleAt(old list, index)`: only the read flag of the book at `index` is negated |
| `Library.Catalog.SubmitAdd` | libraryone.py:124-130 | a book is added (with read flag true exactly when "Read" was chosen) if and only if title and author are both non-empty; otherwise the list is unchanged |
| `Books.FieldOf` | libraryone.py:105 | the lookup `book[search_by]` yields the title, author or genre as the field chosen |
| `Books.Matches` | libraryone.py:104-105 | the comprehension's filter test holds if and only if the lower-cased term occurs at some offset of the lower-cased field |
| `Text.Contains` | libraryone.py:105 | `term in field` as a left-to-right scan of offsets: it never holds for a term longer than the field and always holds for a prefix of the field; `Text.ContainsIff` characterizes it exactly |
| `Books.RemoveAt` | libraryone.py:95-96 | in range: length drops by one, books before `index` stay where they are, books after it move down one place; out of range: the list is unchanged |
| `Books.RemoveAtMultiset` | libraryone.py:96 | removal takes out exactly one copy of the book at `index` and nothing else (as multisets) |
| `Books.ToggleAt` | libraryone.py:148 | same length; the read flag at `index` is negated; all other fields of that book and all other books are unchanged |
| `Books.ToggleAtTwice` | libraryone.py:148 | toggling the same position twice restores the original list |
| `Books.Search` | libraryone.py:102-105 | the result is no longer than the library and every book in it is from the library and matches the term |
| `Books.SearchMembership` | libraryone.py:104-105 | a book is in the result if and only if it is in the library and its lower-cased field contains the lower-cased term |
| `Books.SearchAppend` | libraryone.py:105 | searching a concatenation gives the two searches concatenated, so library order is kept |
| `Books.SearchIsSubsequence` | libraryone.py:105 | the result is a subsequence of the library |
| `Books.SearchAllMatch` | libraryone.py:105 | when every book matches, the result is the whole library |
| `Books.SearchEmptyTerm` | libraryone.py:104-105 | the empty term returns the whole library |
| `Books.SearchCaseInsensitive` | libraryone.py:104-105 | searching for the lower-cased term gives the same result as the term itself |
| `Books.ReadCount` | libraryone.py:170 | the read count lies between 0 and the number of books; it is 0 exactly when no book is read and equals the total exactly when every book is read |
| `Books.UnreadCount` | libraryone.py:171 | the number of unread books lies between 0 and the total |
| `Books.ReadUnreadPartition` | libraryone.py:169-171 | read count plus unread count equals the number of books |
| `Books.ReadCountAppend` | libraryone.py:170 | the read count of a concatenation is the sum of the read counts |
| `Books.ReadCountSplit` | libraryone.py:170 | the read count is that of the books before an index, plus the book at it, plus the books after it |
| `Books.Statistics` | libraryone.py:169-171 | total is the library length, `0 <= read <= total`, unread is total minus read, and read is 0 exactly when no book is read |
| `Books.StatisticsUnread` | libraryone.py:171 | the unread figure, computed as total minus read, equals the number of books whose read flag is false |
| `Books.ReadCountAfterAdd` | libraryone.py:87 | appending a book raises the read count by one exactly when the new book is marked read |
| `Books.ReadCountAfterRemove` | libraryone.py:96 | removing a book lowers the read count by one exactly when the removed book was read |
| `Books.ReadCountAfterToggle` | libraryone.py:148 | toggling moves exactly one book between the read and unread counts |
| `Text.LowerChar` | libraryone.py:104 | the result is never an ASCII capital; only ASCII capitals change, each into the small letter at the same alphabet position |
| `Text.Lower` | libraryone.py:104-105 | lower-casing keeps the length and lower-cases every character |
| `Text.LowerIdempotent` | libraryone.py:104 | lower-casing twice is the same as lower-casing once |
| `Text.ContainsIff` | libraryone.py:105 | the substring test holds if and only if the term occurs in the field at some offset |
| `Text.ContainsEmpty` | libraryone.py:105 | the empty string is contained in every string |

## Left out

- Streamlit page setup, the background CSS, sidebar navigation, the rendering of lists and metrics, and the Plotly pie chart (libraryone.py:9-32, 108-183 outside the handlers above). These are presentation only.
- JSON persistence: `initialize_library`, `load_library` and `save_library` (libraryone.py:38-69), and the `save_library()` call after each update. They are file I/O. The constructor takes the loaded list as a parameter, and no model of the file is kept.
- `datetime.now()` (libraryone.py:85) is nondeterministic, so the formatted timestamp is the `addedDate` parameter.
- `st.success`, `st.warning`, `st.balloons` and `st.experimental_rerun` are framework side effects with no effect on the list.
- `st.session_state` is replaced by the explicit `Catalog` object.
- Text.Lower: models `str.lower()` only for the ASCII letters A-Z. Other characters are left unchanged, although Python's Unicode case mapping would lower-case them and can even change a string's length.
- Library.Catalog.ToggleRead: requires `0 <= index < |books|`. The index comes from `enumerate` over the same list (libraryone.py:137), so it always lies in that range. Python's negative indexing, which would toggle a book counted from the end, and the error an index past the end would raise are not modelled.
- `Field` covers only the three search keys the "Search by" select box offers (libraryone.py:154). The function itself would also accept other keys: `added_date` is a string and would be searched normally. For `publication_year` or `read_status` the lookup works but `.lower()` fails on an int or a bool. The UI never passes any of these keys.
- `SubmitAdd` takes the radio button's choice as the `ReadChoice` datatype instead of comparing the label text "Read ✅". The year bounds of the number input (libraryone.py:122) are enforced by the widget, not the catalog, so they are not a catalog invariant.
- Books loaded from the file are assumed to be well-formed records. A file whose `read_status` is not a boolean, or that lacks a key, is not modelled.
- Statistics: the code computes only total, read and unread (libraryone.py:169-171). The code has no read percentage and no genre, author or decade counts, so none is modelled.
- The UI calls `search_books` only with a non-empty term (libraryone.py:158). The function itself returns the whole library for an empty term, as `SearchEmptyTerm` shows.
- Concurrent sessions writing the same file, and the lost updates they cause, are outside this sequential model.
