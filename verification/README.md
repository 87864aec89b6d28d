# Book list page: search and read toggle

A verified model of the logic of the `Home` page of the shelves front end
(`src/pages/Home.jsx`). The page keeps the list of books in a single piece of
state, `books`. Two operations change it:

- **search** (`handleSearch`) keeps the books whose lower-cased title or author
  contains the lower-cased term, or whose `publishYear`, turned into a string,
  contains the term exactly as typed. The result replaces the state. The filter
  runs on the current, possibly already narrowed list, so successive searches
  intersect.
- **read toggle** (`toggleRead`) maps over the list. Every book whose `_id` equals
  the given id gets a copy with `read` flipped by a string test: exactly `"true"`
  becomes `"false"`, anything else becomes `"true"`. All other books stay as
  they are. The new list replaces the state.

Files:

- `jsstring.dfy`, module `JsString`: the JavaScript built-ins the search relies on.
  These are `toLowerCase` (ASCII letters), `includes` (with a reference
  definition by occurrence index) and `toString` on integers (with its
  read-back round trip).
- `home.dfy`, module `Home`: the `Book` record and `Array.prototype.filter` as
  `Filter`. It holds the search callback `Matches`, the search `Search`, the
  reference "all terms at once" search `SearchAll`, the toggle `Toggle` and the
  lemmas relating them. The class `HomeState` holds the `books` state; its
  methods replace that state the way `setBooks` does. Two ghost fields record the
  received collection and the terms searched since it arrived. The invariant
  `Valid()` says that `books` is exactly the part of that collection matching
  every term.

Two facts about the code are worth stating outright, since the model keeps both:

- `toggleRead` flips every book that carries the id, not only one (src/pages/Home.jsx:58-59); so does `Toggle`.
- The year's string form is matched case-sensitively whether `publishYear` arrived as a number or as a string (src/pages/Home.jsx:49).

## Model

| member | source | states |
|---|---|---|
| `JsString.LowerChar` | src/pages/Home.jsx:47-48 | an upper-case ASCII letter becomes the lower-case letter at the same alphabet position; every other character is kept; no upper-case letter results |
| `JsString.Lower` | src/pages/Home.jsx:47-48 | `toLowerCase` keeps the length and lowers each character on its own |
| `JsString.Contains` | src/pages/Home.jsx:47-49 | `includes` never finds a term longer than the string, and always finds the empty term |
| `JsString.ContainsIffOccurs` | src/pages/Home.jsx:47-49 | `includes` holds exactly when the term occurs at some index of the string, both directions |
| `JsString.LowerPreservesContains` | src/pages/Home.jsx:47-48 | exact inclusion implies inclusion after lowering both sides |
| `JsString.NatToDecimal` | src/pages/Home.jsx:49 | the decimal form of a number is non-empty, all digits and has no leading zero |
| `JsString.DecimalRoundTrip` | src/pages/Home.jsx:49 | reading back the digits of a number gives the number |
| `JsString.IntToString` | src/pages/Home.jsx:49 | an integer's string form starts with '-' exactly when it is negative and is otherwise made of digits |
| `Home.YearText` | src/pages/Home.jsx:49 | `publishYear.toString()`: a string year is its own text; a number year gives a non-empty text starting with '-' exactly when negative and holding no upper-case letter |
| `Home.Filter` | src/pages/Home.jsx:45-52 | the filtered list is no longer than the input and holds exactly the input's elements the callback accepts |
| `Home.FilterCount` | src/pages/Home.jsx:45-52 | an accepted element keeps its number of occurrences; a rejected one has none |
| `Home.FilterIsSubsequence` | src/pages/Home.jsx:45-52 | the filtered list is a subsequence of the input, in the same order |
| `Home.FilterTwice` | src/pages/Home.jsx:45-54 | filtering a filtered list equals one filter with the conjunction of both callbacks |
| `Home.FilterKeepsAll` | src/pages/Home.jsx:45-52 | a callback accepting every element returns the list unchanged |
| `Home.Matches` | src/pages/Home.jsx:46-51 | the filter callback (lowered title, lowered author or verbatim year text includes the term) accepts every book for the empty term |
| `Home.Search` | src/pages/Home.jsx:42-55 | a book is in the result exactly when it is in the current list and matches on title, author or year |
| `Home.SearchCount` | src/pages/Home.jsx:45-52 | a matching book is kept as often as it occurs; a non-matching one is dropped entirely |
| `Home.SearchIsSubsequence` | src/pages/Home.jsx:45-52 | the search result keeps the current order and adds or alters no book |
| `Home.MatchesVerbatim` | src/pages/Home.jsx:47-48 | a book whose title or author contains the term as typed is found, whatever the case |
| `Home.SearchEmptyTerm` | src/pages/Home.jsx:47-49 | searching for the empty term keeps every book |
| `Home.SearchAll` | src/pages/Home.jsx:45-54 | reference: the books of a list matching every one of a sequence of terms |
| `Home.SearchAllNone` | src/pages/Home.jsx:45-54 | with no term searched, the reference result is the whole list |
| `Home.SearchNarrows` | src/pages/Home.jsx:45-54 | searching the narrowed list equals searching the original list for all terms including the new one |
| `Home.SearchTwice` | src/pages/Home.jsx:45-54 | two searches in a row keep exactly the original books matching both terms |
| `Home.SearchCommutes` | src/pages/Home.jsx:45-54 | the order of two searches does not matter |
| `Home.SearchIdempotent` | src/pages/Home.jsx:45-54 | repeating a search changes nothing |
| `Home.SearchExample` | src/pages/Home.jsx:45-52 | searching "her" in [Dune by Herbert 1965, Emma by Austen 1815] gives exactly [Dune] |
| `Home.SearchKeepsFirstOfTwo` | src/pages/Home.jsx:45-52 | of two books where only the first matches, the search keeps exactly the first |
| `Home.FlipRead` | src/pages/Home.jsx:71-74 | the flag's displayed state flips; the new flag is "true" or "false" and never the old text |
| `Home.FlipTwice` | src/pages/Home.jsx:71-74 | flipping twice restores the flag exactly when it was "true" or "false" |
| `Home.ToggleBook` | src/pages/Home.jsx:59-76 | the map callback keeps id, title, author and year; a book with another id is returned as is; a book with the id gets the flipped flag |
| `Home.Toggle` | src/pages/Home.jsx:57-79 | same length and order; books with another id unchanged; books with the id keep every field but get the flipped flag |
| `Home.ToggleUnchanged` | src/pages/Home.jsx:58-77 | toggling leaves the list equal to itself exactly when no book has the id |
| `Home.ToggleTwice` | src/pages/Home.jsx:57-79 | toggling twice restores the list exactly when every book with the id has flag "true" or "false" |
| `Home.MatchesIgnoresToggle` | src/pages/Home.jsx:47-49 | whether a book matches a term does not depend on its read flag |
| `Home.ToggleFilterCommute` | src/pages/Home.jsx:45-77 | toggling commutes with any filter callback that ignores the flag |
| `Home.ToggleSearchCommute` | src/pages/Home.jsx:45-77 | searching a toggled list gives the toggled search result |
| `Home.ToggleSearchAllCommute` | src/pages/Home.jsx:45-77 | the narrowed list of several searches commutes with a toggle |
| `Home.HomeState.constructor` | src/pages/Home.jsx:15 | the page starts with an empty list, satisfying the invariant |
| `Home.HomeState.Receive` | src/pages/Home.jsx:31 | the received list becomes both the state and the new collection, with no term searched |
| `Home.HomeState.HandleSearch` | src/pages/Home.jsx:42-55 | the state becomes the search of the old state; the state stays the collection filtered by every term so far, now including this one |
| `Home.HomeState.ToggleRead` | src/pages/Home.jsx:57-79 | the state becomes the toggle of the old state; the invariant holds with the collection toggled too |

## Left out

- The HTTP request of the initial load, the `loading` flag and the spinner (src/pages/Home.jsx:18-40): network I/O. Only the state update on success, line 31, is modelled (`Home.HomeState.Receive`). A failed request leaves the list as the constructor made it.
- The `PUT` request inside `toggleRead` (src/pages/Home.jsx:61-68) and its error logging: fire-and-forget network I/O whose outcome never reaches the state. Its payload sends `!book.read`, which is `false` for every non-empty string; that is wire-side and not modelled.
- All rendering, links, icons and the search box component (src/components/SearchBar.jsx), which only passes its text through unchanged.
- `JsString.Lower`: lowers ASCII letters only; JavaScript's `toLowerCase` follows full Unicode case mapping.
- `JsString.IntToString`: prints the exact decimal digits of any integer. JavaScript agrees only for magnitudes up to 2^53. Above 2^53 it prints the shortest digits that read back to the same double, padded with zeros (`(2**60).toString()` is "1152921504606847000"); from 10^21 on it uses exponent notation; a non-integer year prints with a fraction. None of these is modelled.
- `Home.Book`: every field is a string (the year a number or a string). A missing or `null` field makes the JavaScript callback throw, but `||` short-circuits (src/pages/Home.jsx:47-49): a missing title always throws, a missing author throws only when the title does not match, and a missing year only when neither title nor author matches. A throw leaves `books` unchanged, because `setBooks` at line 54 is never reached. None of this is modelled. A non-string `read` value (the loose `==` at line 71) is not modelled either.
- Rendering the flag: the table shows "Yes" exactly when `read` is the text "true" (line 173). This is `Home.IsRead`, which the toggle contracts use.
