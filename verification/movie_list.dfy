/** The pure decisions of the movie list (components/MovieList.tsx): which
    endpoint to fetch, which fetched movies to show, which poster image to
    use, and which page buttons to draw. */
module MovieList {
  import opened Optional
  import opened JsNumber
  import Sequences
  import QueryUrl

  /** A movie as the list endpoint returns it. `releaseDate` is optional
      because the code reads it with `?.`. */
  datatype Movie = Movie(
    id: int,
    title: string,
    overview: string,
    posterPath: Option<string>,
    releaseDate: Option<string>,
    voteAverage: real,
    genreIds: seq<int>)

  /** The two listing endpoints, each carrying the requested page. */
  datatype Endpoint = Popular(page: Num) | Discover(page: Num, genre: Num)

  /** The endpoint fetched for a page and a genre id: a truthy genre id
      selects genre discovery, anything else (`null`, 0, NaN) the popular list. */
  function ChooseEndpoint(page: Num, genreId: Option<Num>): (e: Endpoint)
    ensures e.page == page
    ensures e.Discover? <==> genreId.Some? && Truthy(genreId.value)
    ensures e.Discover? ==> e.genre == genreId.value
  {
    if genreId.Some? && Truthy(genreId.value) then Discover(page, genreId.value) else Popular(page)
  }

  const ApiBase := "https://api.themoviedb.org/3/"

  /** The request URL of an endpoint; `apiKey` is the configured key as text. */
  function EndpointUrl(apiKey: string, e: Endpoint): (url: string)
    ensures e.Discover? ==> ApiBase + "discover/movie?" <= url
    ensures e.Popular? ==> ApiBase + "movie/popular?" <= url
  {
    match e
    case Discover(page, genre) =>
      ApiBase + "discover/movie?api_key=" + apiKey + "&language=tr-TR&page=" + ToString(page)
      + "&with_genres=" + ToString(genre)
    case Popular(page) =>
      ApiBase + "movie/popular?api_key=" + apiKey + "&language=tr-TR&page=" + ToString(page)
  }

  /** The URL tells the two endpoints apart: its path is `discover/movie`
      exactly when genre discovery was chosen. */
  lemma EndpointUrlShowsKind(apiKey: string, page: Num, genreId: Option<Num>)
    ensures ApiBase + "discover/" <= EndpointUrl(apiKey, ChooseEndpoint(page, genreId))
            <==> genreId.Some? && Truthy(genreId.value)
  {
    var url := EndpointUrl(apiKey, ChooseEndpoint(page, genreId));
    var d := ApiBase + "discover/";
    if !(genreId.Some? && Truthy(genreId.value)) {
      assert (ApiBase + "movie/popular?")[|ApiBase|] == 'm';
      assert url[|ApiBase|] == 'm';
      assert d[|ApiBase|] == 'd';
    }
  }

  /** The year the "year" filter reads: `parseInt` of the first four
      characters of the release date, with "0" for a missing or empty date.
      The source calls `parseInt` without a radix, which reads a `0x` or
      `0X` prefix as hexadecimal; decimal parsing is used here instead. The
      filter's decision is the same either way: four characters hold at
      most two hex digits after the prefix (at most 0xFF = 255), and the
      decimal reading of such text is 0 or negative, all outside 2023..2025. */
  function ReleaseYear(m: Movie): (y: Num)
    ensures m.releaseDate.None? || m.releaseDate.value == "" ==> y == Int(0)
  {
    ParseZero();
    var head := match m.releaseDate
      case None => ""
      case Some(d) => if |d| <= 4 then d else d[..4];
    ParseInt(if head == "" then "0" else head)
  }

  const FirstYear := 2023
  const LastYear := 2025
  const MinRating: real := 7.0

  /** Whether the client-side filter keeps a movie. */
  predicate Keep(filter: string, m: Movie) {
    if filter == "year" then
      var y := ReleaseYear(m);
      y.Int? && FirstYear <= y.i <= LastYear
    else if filter == "imdb" then
      m.voteAverage >= MinRating
    else
      true
  }

  /** `filteredMovies`: the fetched movies the filter keeps, in fetched order. */
  function FilterMovies(filter: string, movies: seq<Movie>): (r: seq<Movie>)
    ensures |r| <= |movies|
    ensures forall m :: m in r ==> m in movies && Keep(filter, m)
  {
    if |movies| == 0 then []
    else if Keep(filter, movies[0]) then [movies[0]] + FilterMovies(filter, movies[1..])
    else FilterMovies(filter, movies[1..])
  }

  /** The filter keeps every fetched movie it accepts, and only those. */
  lemma {:induction false} FilterMembers(filter: string, movies: seq<Movie>)
    ensures forall m :: m in FilterMovies(filter, movies) <==> m in movies && Keep(filter, m)
    decreases |movies|
  {
    if |movies| > 0 {
      FilterMembers(filter, movies[1..]);
      assert movies == [movies[0]] + movies[1..];
    }
  }

  /** The shown list is an order-preserving subsequence of the fetched list. */
  lemma {:induction false} FilterIsSubsequence(filter: string, movies: seq<Movie>)
    ensures Sequences.IsSubsequence(FilterMovies(filter, movies), movies)
    decreases |movies|
  {
    if |movies| > 0 {
      var rest := FilterMovies(filter, movies[1..]);
      FilterIsSubsequence(filter, movies[1..]);
      if Keep(filter, movies[0]) {
        assert ([movies[0]] + rest)[1..] == rest;
      } else {
        Sequences.SubsequenceSkip(rest, movies[0], movies[1..]);
        assert [movies[0]] + movies[1..] == movies;
      }
    }
  }

  /** Filtering the shown list again changes nothing. */
  lemma {:induction false} FilterIdempotent(filter: string, movies: seq<Movie>)
    ensures FilterMovies(filter, FilterMovies(filter, movies)) == FilterMovies(filter, movies)
    decreases |movies|
  {
    if |movies| > 0 {
      FilterIdempotent(filter, movies[1..]);
      if Keep(filter, movies[0]) {
        var r := [movies[0]] + FilterMovies(filter, movies[1..]);
        assert r[1..] == FilterMovies(filter, movies[1..]);
      }
    }
  }

  /** Filtering a concatenation filters each part. */
  lemma {:induction false} FilterAppend(filter: string, a: seq<Movie>, b: seq<Movie>)
    ensures FilterMovies(filter, a + b) == FilterMovies(filter, a) + FilterMovies(filter, b)
    decreases |a|
  {
    if |a| == 0 {
      assert a + b == b;
    } else {
      assert (a + b)[1..] == a[1..] + b;
      FilterAppend(filter, a[1..], b);
    }
  }

  /** A filter other than "year" and "imdb" (including "all") shows every fetched movie. */
  lemma {:induction false} OtherFilterKeepsAll(filter: string, movies: seq<Movie>)
    requires filter != "year" && filter != "imdb"
    ensures FilterMovies(filter, movies) == movies
    decreases |movies|
  {
    if |movies| > 0 {
      OtherFilterKeepsAll(filter, movies[1..]);
    }
  }

  /** The "imdb" filter keeps exactly the movies rated at least 7. */
  lemma ImdbKeeps(movies: seq<Movie>)
    ensures forall m :: m in FilterMovies("imdb", movies) <==> m in movies && m.voteAverage >= 7.0
  {
    FilterMembers("imdb", movies);
  }

  /** The "year" filter keeps a movie whose release date starts with four
      digits exactly when they spell a year from 2023 to 2025. */
  lemma YearFilterOnDate(m: Movie)
    requires m.releaseDate.Some? && |m.releaseDate.value| >= 4
    requires AllDigits(m.releaseDate.value[..4])
    ensures Keep("year", m) <==> 2023 <= DecimalValue(m.releaseDate.value[..4]) <= 2025
  {
    var head := m.releaseDate.value[..4];
    if |m.releaseDate.value| == 4 {
      assert m.releaseDate.value == head;
    }
    ParseDigitString(head);
  }

  /** The "year" filter drops a movie without a release date, and one whose
      date does not begin with a number. */
  lemma YearFilterDropsUndated(m: Movie)
    requires m.releaseDate.None? || m.releaseDate.value == "" || ReleaseYear(m).NaN?
    ensures !Keep("year", m)
  {
  }

  const ImageBase := "https://image.tmdb.org/t/p/w500"
  const NoImage := "/no-image.png"

  /** The `src` of a movie's poster. */
  function PosterSrc(m: Movie): (src: string)
    ensures src == NoImage <==> m.posterPath.None? || m.posterPath.value == ""
    ensures src != NoImage ==> src == ImageBase + m.posterPath.value
  {
    if m.posterPath.Some? && m.posterPath.value != "" then
      assert (ImageBase + m.posterPath.value)[0] != NoImage[0];
      ImageBase + m.posterPath.value
    else NoImage
  }

  /** Two movies get the same poster `src` exactly when both lack a poster
      or both have the same poster path: the `src` determines the image. */
  lemma PosterSrcInjective(m1: Movie, m2: Movie)
    ensures PosterSrc(m1) == PosterSrc(m2) <==>
      if m1.posterPath.None? || m1.posterPath.value == "" then m2.posterPath.None? || m2.posterPath.value == ""
      else m2.posterPath == m1.posterPath
  {
    if PosterSrc(m1) == PosterSrc(m2) && PosterSrc(m1) != NoImage {
      var p1 := m1.posterPath.value;
      var p2 := m2.posterPath.value;
      assert p1 == (ImageBase + p1)[|ImageBase|..];
      assert p2 == (ImageBase + p2)[|ImageBase|..];
    }
  }

  /** One page button: its number and whether it is highlighted. */
  datatype Button = Button(number: int, highlighted: bool)

  const MaxButtons := 10

  /** The pagination bar for `totalPages` and the current page. `Array(n)`
      throws on a negative length, so a negative page count renders nothing
      but an error (`None`). */
  function Pagination(totalPages: int, page: Num): (r: Option<seq<Button>>)
    ensures r.Some? <==> totalPages >= 0
    ensures r.Some? ==> |r.value| == if totalPages < MaxButtons then totalPages else MaxButtons
    ensures r.Some? ==> forall k :: 0 <= k < |r.value| ==> r.value[k].number == k + 1
  {
    var n := if totalPages < MaxButtons then totalPages else MaxButtons;
    if n < 0 then None
    else Some(seq(n, k => Button(k + 1, page == Int(k + 1))))
  }

  /** How many buttons are highlighted. */
  function CountHighlighted(bs: seq<Button>): nat {
    if |bs| == 0 then 0 else (if bs[0].highlighted then 1 else 0) + CountHighlighted(bs[1..])
  }

  /** Buttons numbered consecutively from `first`, each highlighted exactly
      when its number is the current page. */
  predicate NumberedFrom(bs: seq<Button>, first: int, page: Num) {
    forall k :: 0 <= k < |bs| ==> bs[k] == Button(first + k, page == Int(first + k))
  }

  lemma {:induction false} CountNumbered(bs: seq<Button>, first: int, page: Num)
    requires NumberedFrom(bs, first, page)
    ensures CountHighlighted(bs) == if page.Int? && first <= page.i < first + |bs| then 1 else 0
    decreases |bs|
  {
    if |bs| > 0 {
      assert NumberedFrom(bs[1..], first + 1, page) by {
        forall k | 0 <= k < |bs[1..]| ensures bs[1..][k] == Button(first + 1 + k, page == Int(first + 1 + k)) {
          assert bs[1..][k] == bs[k + 1];
        }
      }
      CountNumbered(bs[1..], first + 1, page);
    }
  }

  /** Exactly one button is highlighted when the current page is among the
      drawn numbers, and none otherwise (a page past the tenth, NaN). */
  lemma HighlightedButton(totalPages: int, page: Num)
    requires totalPages >= 0
    ensures var bs := Pagination(totalPages, page).value;
      && (forall k :: 0 <= k < |bs| ==> (bs[k].highlighted <==> page == Int(k + 1)))
      && CountHighlighted(bs) == if page.Int? && 1 <= page.i <= |bs| then 1 else 0
  {
    var bs := Pagination(totalPages, page).value;
    assert NumberedFrom(bs, 1, page);
    CountNumbered(bs, 1, page);
  }

  /** Clicking any drawn button on a page read from the URL moves to that
      page and keeps the filter, the genre and the search. */
  lemma ButtonClick(totalPages: int, cur: QueryUrl.QueryState, k: int)
    requires totalPages >= 0
    requires cur.filter != ""
    requires 0 <= k < |Pagination(totalPages, cur.page).value|
    ensures var b := Pagination(totalPages, cur.page).value[k];
      QueryUrl.Next(cur, QueryUrl.ChangePage(Int(b.number))) == cur.(page := Int(b.number))
  {
    var b := Pagination(totalPages, cur.page).value[k];
    assert b.number == k + 1;
    QueryUrl.ChangeToPage(cur, b.number);
  }
}
