# Film portal: URL state, list selection and playlist resolution

A Dafny model of the pure logic of a movie-discovery front-end and of its
companion playlist script:

- **Query state and URL** (`components/MainLayoutWrapper.tsx`). The list
  page keeps four values: filter category, page, genre id and search term.
  They are written into the URL's query string, with every default left out,
  and read back from it, with a default for each missing field. Four user
  actions (search, genre pick, filter pick, page change) each request a new
  state. It is written into the URL, by push from the detail page and by
  replace on the list page. `QueryUrl.Next` models the component's own
  effect that re-parses the URL after that navigation
  (`components/MainLayoutWrapper.tsx:38-46`). It assumes the component is
  mounted on the target page. In the repository as it stands, no route
  renders this component: `app/page.tsx` keeps its own state and does not
  read the URL, and the detail page does not mount the wrapper. Module
  `QueryUrl`.
- **List selection** (`components/MovieList.tsx`). This covers the endpoint
  chosen from the genre id and the client-side "year" and "imdb" filters. It
  also covers the poster URL with its placeholder and the page buttons with
  the highlighted one. Module `MovieList`.
- **Playlist resolution** (`convert.py`). The entry lines of an M3U playlist
  are selected. For each entry's fetched page, the first stripped line that
  starts with `http` and contains `thumbnail` is found. Its
  `thumbnail….jpg` span is rewritten to `index.m3u8`. Module `Playlist`.

JavaScript numbers are `JsNumber.Num`: an integer or NaN. `String(n)` and
`parseInt(s, 10)` are modelled on them. A non-numeric `page` or `genre` in
the URL therefore yields NaN, as in the code.
`Optional.Option` stands for `null` and Python's `None`. `Text` holds the
white-space classes of both languages and trimming by them. `Sequences` holds
the generic subsequence and substring definitions.

The model follows the code in these points:

- A non-numeric `page` in the URL is kept as NaN. Nothing replaces it by 1 (`QueryUrl.NonNumericPageIsNaN`).
- The `filter` value is not validated. Any string is stored, serialised and
  compared.
- The wrapper passes the search term to the list component
  (`components/MainLayoutWrapper.tsx:121`), but the list neither declares
  nor reads it (`components/MovieList.tsx:16-23`). It fetches only the
  popular-list and genre-discovery endpoints. It applies the year and
  rating criteria client-side to the fetched page.
- Fewer than zero pages makes `Array(n)` throw. It does not draw zero
  buttons, so `MovieList.Pagination` returns `None` for a negative page count.
- Nothing discards a response that arrives after a newer request was made.

## Model

| member | source | states |
|---|---|---|
| `JsNumber.ParseToString` | components/MainLayoutWrapper.tsx:40-43 | `parseInt(String(n), 10)` gives back `n` for every integer and for NaN, so a page or genre written into the URL reads back unchanged |
| `Text.TrimLeftSpec` | components/MainLayoutWrapper.tsx:40-43 | trimming leaves the longest suffix that does not start with white space; everything removed is white space |
| `JsNumber.ToString` | components/MainLayoutWrapper.tsx:60-61 | `String(n)` is never empty and starts with a minus sign exactly for a negative integer; `ParseToString` makes it the inverse of `ParseInt` |
| `JsNumber.ParseInt` | components/MainLayoutWrapper.tsx:40-43 | `parseInt(s, 10)`, characterised by `ParseNaN` (when it gives NaN), `ParseDigitString` (the value of a digit string) and `ParseToString` (inverse of `String`) |
| `JsNumber.ParseNaN` | components/MainLayoutWrapper.tsx:40-43 | `parseInt` gives NaN if and only if no digit follows the leading white space and the optional sign |
| `JsNumber.ParseWord` | components/MainLayoutWrapper.tsx:40 | the text "abc" reads as NaN |
| `JsNumber.ParseZero` | components/MovieList.tsx:48 | the fallback year text "0" reads as the number 0 |
| `JsNumber.ParseDigitString` | components/MovieList.tsx:48 | a non-empty string of decimal digits parses to its decimal value |
| `QueryUrl.Get` | components/MainLayoutWrapper.tsx:39-45 | a value found for a key comes from a pair with that key; `GetFirst` states which pair |
| `QueryUrl.GetFirst` | components/MainLayoutWrapper.tsx:39-45 | reading a parameter yields the value of the first pair with that key, and nothing exactly when no pair has it |
| `QueryUrl.Parse` | components/MainLayoutWrapper.tsx:38-46 | a state read from any URL has a non-empty filter |
| `QueryUrl.ParseDefaults` | components/MainLayoutWrapper.tsx:39-45 | an absent or empty filter reads as "all" and an absent or empty page as 1; the genre is `null` exactly when its parameter is absent or empty; an absent search term reads as "" |
| `QueryUrl.ParsePresent` | components/MainLayoutWrapper.tsx:39-45 | a field present with a non-empty value is read from the URL: filter and search term as written, page and genre as `parseInt` of their text, with no check of the result |
| `QueryUrl.NonNumericPageIsNaN` | components/MainLayoutWrapper.tsx:40 | a URL with `page=abc` reads as a NaN page; nothing replaces it by 1 |
| `QueryUrl.Serialise` | components/MainLayoutWrapper.tsx:58-62 | at most four pairs are written; `SerialiseOmitsDefaults` gives the value written for each key and `SerialiseKeys` their order |
| `QueryUrl.SerialiseKeys` | components/MainLayoutWrapper.tsx:58-62 | the written keys are an order-preserving subsequence of filter, page, genre, query: no other key, none twice, in that order |
| `QueryUrl.SerialiseOmitsDefaults` | components/MainLayoutWrapper.tsx:58-62 | the filter is written unless empty or "all"; the page only when above 1; the genre whenever it is not `null`, 0 included; the search term unless empty |
| `QueryUrl.QueryString` | components/MainLayoutWrapper.tsx:64 | the query string is empty exactly when no parameter is set |
| `QueryUrl.TargetUrl` | components/MainLayoutWrapper.tsx:64-65 | the URL is `/` exactly when every field holds its default; otherwise it is `/?` followed by the query string |
| `QueryUrl.UrlOfFilterAndPage` | components/MainLayoutWrapper.tsx:58-65 | the "imdb" filter on page 2 is written as `/?filter=imdb&page=2` |
| `QueryUrl.UrlOfGenre` | components/MainLayoutWrapper.tsx:58-65 | genre 28 on the first page with the default filter is written as `/?genre=28` |
| `QueryUrl.Navigate` | components/MainLayoutWrapper.tsx:67-71 | navigation is a push exactly on the detail page and a replace without scrolling otherwise; its URL is the target URL, which is `/` exactly when every field holds its default |
| `QueryUrl.ParseSerialise` | components/MainLayoutWrapper.tsx:38-62 | writing any state into the URL and reading it back gives its normal form: empty filter becomes "all", a page not above 1 becomes 1, and genre and search term are kept |
| `QueryUrl.RoundTrip` | components/MainLayoutWrapper.tsx:38-62 | reading back a written state gives the same state if and only if its filter is non-empty and its page is an integer of at least 1; any genre and search term survive |
| `QueryUrl.NormaliseIdempotent` | components/MainLayoutWrapper.tsx:38-62 | a second trip through the URL changes nothing |
| `QueryUrl.EmptyUrlIsInitial` | components/MainLayoutWrapper.tsx:30-45 | a URL without parameters reads as the initial state ("all", 1, `null`, "") |
| `QueryUrl.Request` | components/MainLayoutWrapper.tsx:76-100 | search, genre and filter picks request page 1; a page change requests the current state with only the page replaced |
| `QueryUrl.RequestIgnoresState` | components/MainLayoutWrapper.tsx:79-94 | search, genre and filter picks request the same state whatever the current one |
| `QueryUrl.Next` | components/MainLayoutWrapper.tsx:38-46 | the state shown after an action is the normal form of the requested state, as written into the URL and parsed back |
| `QueryUrl.SearchEffect` | components/MainLayoutWrapper.tsx:76-82 | after a search the page shows ("all", 1, `null`, q) whatever the state before |
| `QueryUrl.SelectGenreEffect` | components/MainLayoutWrapper.tsx:85-88 | after a genre pick the page shows ("all", 1, id, ""), with id 0 and `null` included |
| `QueryUrl.SelectFilterEffect` | components/MainLayoutWrapper.tsx:91-94 | after a filter pick the page shows (f, 1, `null`, ""), with the empty filter reading as "all" |
| `QueryUrl.ChangePageEffect` | components/MainLayoutWrapper.tsx:97-100 | a page change on a state read from the URL keeps filter, genre and search term; the new page shows when above 1 and reads as 1 otherwise, NaN included |
| `QueryUrl.ChangeToPage` | components/MainLayoutWrapper.tsx:97-100 | moving to a page number of at least 1 changes only the page |
| `MovieList.ChooseEndpoint` | components/MovieList.tsx:33-35 | genre discovery is chosen exactly for a truthy genre id, so `null`, 0 and NaN choose the popular list; both carry the current page |
| `MovieList.EndpointUrl` | components/MovieList.tsx:33-35 | the discovery URL has path `discover/movie` and the popular URL has `movie/popular` |
| `MovieList.EndpointUrlShowsKind` | components/MovieList.tsx:33-35 | the request URL's path is `discover/…` if and only if the genre id is truthy |
| `MovieList.ReleaseYear` | components/MovieList.tsx:48 | a missing or empty release date reads as year 0; `YearFilterOnDate` gives the value of a four-digit year |
| `MovieList.Keep` | components/MovieList.tsx:46-54 | the per-movie test of the filter, characterised by `YearFilterOnDate`, `YearFilterDropsUndated`, `ImdbKeeps` and `OtherFilterKeepsAll` |
| `MovieList.FilterMovies` | components/MovieList.tsx:46-55 | the shown list is no longer than the fetched list, and every shown movie was fetched and passes the filter |
| `MovieList.FilterMembers` | components/MovieList.tsx:46-55 | a movie is shown if and only if it was fetched and passes the filter |
| `MovieList.FilterIsSubsequence` | components/MovieList.tsx:46-55 | the shown list is an order-preserving subsequence of the fetched list |
| `MovieList.FilterIdempotent` | components/MovieList.tsx:46-55 | filtering the shown list again changes nothing |
| `MovieList.FilterAppend` | components/MovieList.tsx:46-55 | filtering decides movie by movie: the filter of a concatenation is the concatenation of the filters |
| `MovieList.OtherFilterKeepsAll` | components/MovieList.tsx:54 | any filter other than "year" and "imdb" shows the fetched list unchanged |
| `MovieList.ImdbKeeps` | components/MovieList.tsx:51-53 | "imdb" shows exactly the fetched movies rated at least 7 |
| `MovieList.YearFilterOnDate` | components/MovieList.tsx:47-50 | for a date starting with four digits, "year" keeps the movie if and only if they spell 2023, 2024 or 2025 |
| `MovieList.YearFilterDropsUndated` | components/MovieList.tsx:47-50 | "year" drops a movie with a missing or empty date, or one whose first four characters do not parse as a number |
| `MovieList.PosterSrc` | components/MovieList.tsx:69-73 | the poster is the placeholder exactly when the poster path is missing or empty, and otherwise the w500 prefix followed by the path |
| `MovieList.PosterSrcInjective` | components/MovieList.tsx:69-73 | two movies get the same poster URL if and only if both lack a poster or both have the same path |
| `MovieList.Pagination` | components/MovieList.tsx:92-100 | buttons are drawn exactly when the page count is not negative; there are min(totalPages, 10) of them, numbered 1, 2, … in order |
| `MovieList.HighlightedButton` | components/MovieList.tsx:96-98 | a button is highlighted exactly when its number is the current page; one button is highlighted when the page is among the drawn numbers, and none otherwise |
| `MovieList.ButtonClick` | components/MovieList.tsx:95 | clicking any drawn button moves to its page and keeps filter, genre and search term |
| `Text.TrimRightSpec` | convert.py:32 | trimming leaves the longest prefix that does not end with white space; everything removed is white space |
| `Playlist.Strip` | convert.py:14 | stripping never lengthens a line; `StripSlice` and `StripRemovesOnlySpace` determine it exactly |
| `Playlist.StripSlice` | convert.py:32 | stripping yields a slice of the line that neither starts nor ends with white space |
| `Playlist.StripRemovesOnlySpace` | convert.py:32 | everything stripping removes, before and after the slice, is white space |
| `Playlist.Entries` | convert.py:32 | there are no more entries than lines, and no entry is empty |
| `Playlist.EntriesAppend` | convert.py:32 | entries are selected line by line: the entries of concatenated playlists are the concatenated entries |
| `Playlist.EntriesComplete` | convert.py:32 | every non-blank line not starting with `#` gives its stripped text as an entry |
| `Playlist.EntriesSound` | convert.py:32 | every entry is the stripped text of a non-blank line not starting with `#` |
| `Playlist.IndentedLineIsEntry` | convert.py:32 | a non-blank line starting with white space is an entry even when its text starts with `#` |
| `Playlist.FindJpg` | convert.py:16 | the lazy `.*?\.jpg` ends at the first `.jpg` that no line break precedes, and there is none if no such `.jpg` exists |
| `Playlist.FindJpgStopsAtFirst` | convert.py:16 | after `thumbnail`, the match stops at the first `.jpg` |
| `Playlist.RewriteNeverLonger` | convert.py:16 | the rewrite never lengthens a line, since each replaced span is at least `thumbnail.jpg` long; `RewriteKeepsPrefix`, `RewriteFirstSpan` and `RewriteWithoutSpan` determine the rewrite (`Playlist.Rewrite`) |
| `Playlist.RewriteKeepsPrefix` | convert.py:16 | text before the first `thumbnail` is copied unchanged |
| `Playlist.RewriteWithoutSpan` | convert.py:16 | a line in which no `thumbnail` is followed by a closing `.jpg` is returned unchanged, e.g. a `thumbnail.png` link |
| `Playlist.RewriteWithoutThumbnail` | convert.py:16 | a line without `thumbnail` is returned unchanged |
| `Playlist.RewriteSpan` | convert.py:16 | a line starting with a shortest `thumbnail….jpg` span becomes `index.m3u8` followed by the rewrite of the rest |
| `Playlist.RewriteFirstSpan` | convert.py:16 | the whole line is the unchanged prefix, then `index.m3u8`, then the rewrite of the text after the span, with no overlap |
| `Playlist.RewriteIsLazy` | convert.py:16 | `thumbnail.jpg.jpg` becomes `index.m3u8.jpg`: only the first `.jpg` closes the span |
| `Playlist.FirstQualifying` | convert.py:13-17 | the index found is the first whose stripped line starts with `http` and contains `thumbnail`; it is the line count when no line does |
| `Playlist.ResolveTrueUrl` | convert.py:5-22 | a URL is resolved only from a response with status 200; `ResolvedWhenQualifying` and `FirstMatchWins` give the result |
| `Playlist.ResolvedWhenQualifying` | convert.py:5-22 | the result is present if and only if the fetch succeeded with status 200 and some stripped line qualifies |
| `Playlist.FirstMatchWins` | convert.py:13-17 | the result is the rewrite of the first qualifying stripped line |
| `Playlist.LaterLinesIgnored` | convert.py:13-17 | once a line qualifies, lines after it do not change the result |
| `Playlist.ProcessM3u` | convert.py:24-47 | no output when the playlist fetch fails or returns a 4xx or 5xx status; otherwise one record per entry, in order, holding the entry and its resolved URL |

## Left out

- The React hooks, effects, rendering and loading state are not modelled. The URL mapping is modelled as pure functions.
- The 500 ms `debounce` of the search handler is timer-based and is not modelled. `QueryUrl.SearchEffect` describes the call that fires once the timer runs out.
- The Navbar component takes no `onSearch` prop, so nothing in the code triggers a search. The search action is modelled as the handler defines it.
- `fetch`, `res.json()`, the API key lookup and the response fields are not modelled. The API key is a string parameter and the fetched movies and page count are inputs.
- `URLSearchParams` percent-encoding is left out. The query is an ordered list of key/value pairs, and the query string renders them as `key=value` joined by `&` without encoding. The URL is taken back as the same pairs it was built from.
- JavaScript numbers beyond integers and NaN are not modelled: fractions, infinities, and precision lost above 2^53. Integers are unbounded.
- JsNumber.ParseToString: holds "for every integer" only because integers are unbounded here. JavaScript writes `String(n)` in exponent notation from 10^21 on, e.g. "1e+21", and `parseInt` reads that back as 1. So a URL with `genre=1000000000000000000000` does not survive a page change in the real program.
- `vote_average` is a Dafny `real`, not an IEEE double.
- Python's `splitlines` is not modelled: a response body is given as its sequence of lines. `strip()` uses the white-space set of `str.isspace`.
- The HTTP requests of convert.py are inputs. Timeouts, headers and text decoding are not modelled, and an exception becomes the `Failed` response. The JSON file write and the printed messages are left out.
- `MovieList.EndpointUrl` states only the path prefix of each URL. The rest of the template, with key, language, page and genre, is given by its body and is not separately proved.
- The genre list, navbar, movie card, detail page, layout and configuration files are presentation or configuration and are not part of this model.
