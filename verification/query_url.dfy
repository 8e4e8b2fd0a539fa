/** The list page's query state and its two-way mapping to the URL's query
    parameters, with the user actions that rewrite it
    (components/MainLayoutWrapper.tsx). The URL is the single source of
    truth: an action computes a requested state, writes it into the URL, and
    the state the page then shows is whatever is parsed back from the URL. */
module QueryUrl {
  import opened Optional
  import opened JsNumber
  import Sequences

  /** One `key=value` pair of a `URLSearchParams`, before percent-encoding. */
  datatype Param = Param(key: string, value: string)

  /** The layout's four state variables: filter category, page number,
      genre id (`null` when no genre is chosen) and search term. */
  datatype QueryState = QueryState(filter: string, page: Num, genre: Option<Num>, query: string)

  /** The initial values of the four state variables. */
  const Initial := QueryState("all", Int(1), None, "")

  /** `URLSearchParams.get`: the value of the first pair with the key, if any. */
  function Get(params: seq<Param>, key: string): (r: Option<string>)
    ensures r.Some? ==> Param(key, r.value) in params
  {
    if |params| == 0 then None
    else if params[0].key == key then Some(params[0].value)
    else Get(params[1..], key)
  }

  /** `Get` finds the first pair with the key, and nothing when there is none. */
  lemma {:induction false} GetFirst(params: seq<Param>, key: string)
    ensures Get(params, key).None? <==> forall i :: 0 <= i < |params| ==> params[i].key != key
    ensures Get(params, key).Some? ==>
              exists i :: 0 <= i < |params| && params[i] == Param(key, Get(params, key).value)
                          && forall j :: 0 <= j < i ==> params[j].key != key
    decreases |params|
  {
    if |params| > 0 && params[0].key != key {
      var tail := params[1..];
      GetFirst(tail, key);
      if Get(params, key).Some? {
        var i :| 0 <= i < |tail| && tail[i] == Param(key, Get(tail, key).value)
                 && forall j :: 0 <= j < i ==> tail[j].key != key;
        assert params[i + 1] == tail[i];
        forall j | 0 <= j < i + 1 ensures params[j].key != key {
          if j > 0 { assert params[j] == tail[j - 1]; }
        }
      } else {
        forall i | 0 <= i < |params| ensures params[i].key != key {
          if i > 0 { assert params[i] == tail[i - 1]; }
        }
      }
    }
  }

  /** The key is missing or its value is empty: both are falsy to `||` and `?:`. */
  predicate Absent(v: Option<string>) {
    v.None? || v.value == ""
  }

  /** JavaScript's `v || default` on a string that may be `null`: the empty
      string is falsy like `null`. */
  function OrElse(v: Option<string>, default: string): (r: string)
    ensures v.None? || v.value == "" ==> r == default
    ensures v.Some? && v.value != "" ==> r == v.value
  {
    if v.Some? && v.value != "" then v.value else default
  }

  /** The state read back from the URL's parameters. The page and the genre
      go through `parseInt` unchecked, so a non-numeric value yields NaN. */
  function Parse(params: seq<Param>): (s: QueryState)
    ensures s.filter != ""
  {
    var genre := Get(params, "genre");
    QueryState(
      OrElse(Get(params, "filter"), "all"),
      ParseInt(OrElse(Get(params, "page"), "1")),
      if genre.Some? && genre.value != "" then Some(ParseInt(genre.value)) else None,
      OrElse(Get(params, "query"), ""))
  }

  /** The pair `key=value` when `present` holds, nothing otherwise (one `params.set` call). */
  function SetIf(present: bool, key: string, value: string): seq<Param> {
    if present then [Param(key, value)] else []
  }

  /** Parsing supplies a default for every missing field: "all" for an absent
      or empty filter, page 1 for an absent or empty page, `null` exactly for an
      absent or empty genre, and the empty search term. */
  lemma ParseDefaults(params: seq<Param>)
    ensures Absent(Get(params, "filter")) ==> Parse(params).filter == "all"
    ensures Absent(Get(params, "page")) ==> Parse(params).page == Int(1)
    ensures Parse(params).genre.None? <==> Absent(Get(params, "genre"))
    ensures Absent(Get(params, "query")) ==> Parse(params).query == ""
  {
    ParseOne();
  }

  /** A field present in the URL with a non-empty value is read from it: the
      filter and the search term as written, the page and the genre through
      `parseInt`, with no check of the result. */
  lemma ParsePresent(params: seq<Param>)
    ensures !Absent(Get(params, "filter")) ==> Parse(params).filter == Get(params, "filter").value
    ensures !Absent(Get(params, "page")) ==> Parse(params).page == ParseInt(Get(params, "page").value)
    ensures !Absent(Get(params, "genre")) ==> Parse(params).genre == Some(ParseInt(Get(params, "genre").value))
    ensures !Absent(Get(params, "query")) ==> Parse(params).query == Get(params, "query").value
  {
  }

  /** A non-numeric page in the URL is kept as NaN; nothing replaces it by 1. */
  lemma NonNumericPageIsNaN()
    ensures Parse([Param("page", "abc")]).page == NaN
  {
    var params := [Param("page", "abc")];
    assert Get(params, "page") == Some("abc");
    ParsePresent(params);
    ParseWord();
  }

  /** The parameters `handleApplyFilters` sets, in the order it sets them. */
  function Serialise(s: QueryState): (params: seq<Param>)
    ensures |params| <= 4
  {
    SetIf(s.filter != "" && s.filter != "all", "filter", s.filter)
    + (SetIf(Greater(s.page, 1), "page", ToString(s.page))
       + (SetIf(s.genre.Some?, "genre", if s.genre.Some? then ToString(s.genre.value) else "")
          + SetIf(s.query != "", "query", s.query)))
  }

  lemma GetSetIf(present: bool, k: string, v: string, rest: seq<Param>, key: string)
    ensures Get(SetIf(present, k, v) + rest, key) == if present && k == key then Some(v) else Get(rest, key)
  {
    if present {
      assert (SetIf(present, k, v) + rest)[1..] == rest;
    } else {
      assert SetIf(present, k, v) + rest == rest;
    }
  }

  /** Reading one key back from the serialised parameters. */
  lemma GetSerialised(s: QueryState, key: string)
    ensures Get(Serialise(s), key) ==
      if key == "filter" && s.filter != "" && s.filter != "all" then Some(s.filter)
      else if key == "page" && Greater(s.page, 1) then Some(ToString(s.page))
      else if key == "genre" && s.genre.Some? then Some(ToString(s.genre.value))
      else if key == "query" && s.query != "" then Some(s.query)
      else None
  {
    var q := SetIf(s.query != "", "query", s.query);
    var g := SetIf(s.genre.Some?, "genre", if s.genre.Some? then ToString(s.genre.value) else "");
    var p := SetIf(Greater(s.page, 1), "page", ToString(s.page));
    var f := SetIf(s.filter != "" && s.filter != "all", "filter", s.filter);
    GetSetIf(s.query != "", "query", s.query, [], key);
    assert q + [] == q;
    GetSetIf(s.genre.Some?, "genre", if s.genre.Some? then ToString(s.genre.value) else "", q, key);
    GetSetIf(Greater(s.page, 1), "page", ToString(s.page), g + q, key);
    GetSetIf(s.filter != "" && s.filter != "all", "filter", s.filter, p + (g + q), key);
  }

  /** Each field is written exactly when it differs from its default: the
      filter unless it is empty or "all", the page only above 1, the genre
      whenever it is not `null` (0 included), the search term unless empty. */
  lemma SerialiseOmitsDefaults(s: QueryState)
    ensures Get(Serialise(s), "filter") == if s.filter != "" && s.filter != "all" then Some(s.filter) else None
    ensures Get(Serialise(s), "page") == if Greater(s.page, 1) then Some(ToString(s.page)) else None
    ensures Get(Serialise(s), "genre") == if s.genre.Some? then Some(ToString(s.genre.value)) else None
    ensures Get(Serialise(s), "query") == if s.query != "" then Some(s.query) else None
  {
    GetSerialised(s, "filter");
    GetSerialised(s, "page");
    GetSerialised(s, "genre");
    GetSerialised(s, "query");
  }

  /** The keys of the pairs, in order. */
  function Keys(params: seq<Param>): (ks: seq<string>)
    ensures |ks| == |params|
    ensures forall i :: 0 <= i < |params| ==> ks[i] == params[i].key
  {
    if |params| == 0 then [] else [params[0].key] + Keys(params[1..])
  }

  /** The order in which `handleApplyFilters` sets the keys. */
  const KeyOrder := ["filter", "page", "genre", "query"]

  /** The key `SetIf` contributes, if any, in front of the keys of `rest`,
      as a subsequence of `key` in front of `order`. */
  lemma KeysSetIf(present: bool, k: string, v: string, rest: seq<Param>, order: seq<string>)
    requires Sequences.IsSubsequence(Keys(rest), order)
    ensures Sequences.IsSubsequence(Keys(SetIf(present, k, v) + rest), [k] + order)
  {
    if present {
      assert Keys(SetIf(present, k, v) + rest) == [k] + Keys(rest);
      Sequences.SubsequenceCons(k, Keys(rest), order);
    } else {
      assert SetIf(present, k, v) + rest == rest;
      Sequences.SubsequenceSkip(Keys(rest), k, order);
    }
  }

  /** The written pairs carry no key but the four, none twice, in the order
      filter, page, genre, query: their keys are a subsequence of that list. */
  lemma SerialiseKeys(s: QueryState)
    ensures Sequences.IsSubsequence(Keys(Serialise(s)), KeyOrder)
  {
    var q := SetIf(s.query != "", "query", s.query);
    var g := SetIf(s.genre.Some?, "genre", if s.genre.Some? then ToString(s.genre.value) else "");
    var p := SetIf(Greater(s.page, 1), "page", ToString(s.page));
    assert Sequences.IsSubsequence(Keys([]), []);
    KeysSetIf(s.query != "", "query", s.query, [], []);
    assert q + [] == q;
    KeysSetIf(s.genre.Some?, "genre", if s.genre.Some? then ToString(s.genre.value) else "", q, ["query"]);
    KeysSetIf(Greater(s.page, 1), "page", ToString(s.page), g + q, ["genre", "query"]);
    KeysSetIf(s.filter != "" && s.filter != "all", "filter", s.filter, p + (g + q), ["page", "genre", "query"]);
  }

  /** `URLSearchParams.toString()` without percent-encoding: the pairs as
      `key=value`, joined by `&`. */
  function QueryString(params: seq<Param>): (qs: string)
    ensures qs == "" <==> |params| == 0
  {
    if |params| == 0 then ""
    else if |params| == 1 then params[0].key + "=" + params[0].value
    else params[0].key + "=" + params[0].value + "&" + QueryString(params[1..])
  }

  /** Every field of `s` holds its default, so nothing is written to the URL. */
  predicate AllDefault(s: QueryState) {
    && (s.filter == "" || s.filter == "all")
    && !Greater(s.page, 1)
    && s.genre.None?
    && s.query == ""
  }

  /** The URL `handleApplyFilters` navigates to: `/` when no parameter is set,
      otherwise `/?` followed by the query string. */
  function TargetUrl(s: QueryState): (url: string)
    ensures url == "/" <==> AllDefault(s)
    ensures url != "/" ==> |url| >= 2 && url[..2] == "/?" && url[2..] == QueryString(Serialise(s))
  {
    var qs := QueryString(Serialise(s));
    if qs != "" then "/?" + qs else "/"
  }

  /** Two pairs are written as `key=value&key=value`. */
  lemma QueryStringTwo(a: Param, b: Param)
    ensures QueryString([a, b]) == a.key + "=" + a.value + "&" + b.key + "=" + b.value
  {
    assert [a, b][1..] == [b];
  }

  /** The "imdb" filter on page 2 is written as `/?filter=imdb&page=2`. */
  lemma UrlOfFilterAndPage()
    ensures TargetUrl(QueryState("imdb", Int(2), None, "")) == "/?filter=imdb&page=2"
  {
    SerialiseFilterAndPage();
    QueryStringFilterAndPage();
    assert "/?" + "filter=imdb&page=2" == "/?filter=imdb&page=2";
  }

  lemma QueryStringFilterAndPage()
    ensures QueryString([Param("filter", "imdb"), Param("page", "2")]) == "filter=imdb&page=2"
  {
    QueryStringTwo(Param("filter", "imdb"), Param("page", "2"));
    assert "filter" + "=" + "imdb" + "&" + "page" + "=" + "2" == "filter=imdb&page=2";
  }

  lemma SerialiseFilterAndPage()
    ensures Serialise(QueryState("imdb", Int(2), None, "")) == [Param("filter", "imdb"), Param("page", "2")]
  {
    assert ToString(Int(2)) == "2";
  }

  /** Genre 28 alone on the first page is written as `/?genre=28`. */
  lemma UrlOfGenre()
    ensures TargetUrl(QueryState("all", Int(1), Some(Int(28)), "")) == "/?genre=28"
  {
    var s := QueryState("all", Int(1), Some(Int(28)), "");
    assert ToString(Int(28)) == "28";
    assert Serialise(s) == [Param("genre", "28")];
  }

  /** A history push (leaving the detail page for the list) or an in-place
      replace that keeps the scroll position. */
  datatype Navigation = Push(url: string) | Replace(url: string, scroll: bool)

  /** The navigation `handleApplyFilters` performs. */
  function Navigate(s: QueryState, isDetailPage: bool): (nav: Navigation)
    ensures nav.Push? <==> isDetailPage
    ensures nav.Replace? ==> !nav.scroll
    ensures nav.url == TargetUrl(s)
    ensures nav.url == "/" <==> AllDefault(s)
  {
    if isDetailPage then Push(TargetUrl(s)) else Replace(TargetUrl(s), false)
  }

  /** What the user does: submit a search term, pick a genre (or "all
      genres", `null`), pick a filter category, or click a page button. */
  datatype Action = Search(q: string) | SelectGenre(id: Option<Num>) | SelectFilter(f: string) | ChangePage(p: Num)

  /** The state each handler asks `handleApplyFilters` to write. Only a page
      change consults the current state. */
  function Request(cur: QueryState, a: Action): (r: QueryState)
    ensures !a.ChangePage? ==> r.page == Int(1)
    ensures a.ChangePage? ==> r == cur.(page := a.p)
  {
    match a
    case Search(q) => QueryState("all", Int(1), None, q)
    case SelectGenre(id) => QueryState("all", Int(1), id, "")
    case SelectFilter(f) => QueryState(f, Int(1), None, "")
    case ChangePage(p) => QueryState(cur.filter, p, cur.genre, cur.query)
  }

  /** Search, genre and filter picks ignore the current state. */
  lemma RequestIgnoresState(cur: QueryState, other: QueryState, a: Action)
    requires !a.ChangePage?
    ensures Request(cur, a) == Request(other, a)
  {
  }

  /** The state shown after an action: the request written into the URL and parsed back. */
  function Next(cur: QueryState, a: Action): (r: QueryState)
    ensures r == Normal(Request(cur, a))
  {
    ParseSerialise(Request(cur, a));
    Parse(Serialise(Request(cur, a)))
  }

  /** The states that survive a trip through the URL unchanged. */
  predicate Canonical(s: QueryState) {
    s.filter != "" && s.page.Int? && s.page.i >= 1
  }

  /** The state the URL can represent for `s`: each default-valued field
      replaced by the value parsing supplies for it. */
  function Normal(s: QueryState): QueryState {
    QueryState(
      if s.filter == "" then "all" else s.filter,
      if Greater(s.page, 1) then s.page else Int(1),
      s.genre,
      s.query)
  }

  /** Writing any state into the URL and reading it back gives its normal form. */
  lemma ParseSerialise(s: QueryState)
    ensures Parse(Serialise(s)) == Normal(s)
  {
    SerialiseOmitsDefaults(s);
    ParseDefaults(Serialise(s));
    if s.genre.Some? {
      ParseToString(s.genre.value);
    }
    if Greater(s.page, 1) {
      ParseToString(s.page);
    }
  }

  /** Writing a state into the URL and reading it back gives the same state
      exactly when its filter is non-empty and its page is an integer of at
      least 1; any genre (even NaN) and any search term survive. */
  lemma RoundTrip(s: QueryState)
    ensures Parse(Serialise(s)) == s <==> Canonical(s)
  {
    ParseSerialise(s);
    NormalFixes(s);
  }

  /** The normal form leaves exactly the canonical states alone. */
  lemma NormalFixes(s: QueryState)
    ensures Normal(s) == s <==> Canonical(s)
  {
  }

  /** Normalising a state through the URL twice is the same as once. */
  lemma NormaliseIdempotent(s: QueryState)
    ensures Parse(Serialise(Parse(Serialise(s)))) == Parse(Serialise(s))
  {
    ParseSerialise(s);
    ParseSerialise(Normal(s));
  }

  /** The state of a fresh page with no parameters is the initial state. */
  lemma EmptyUrlIsInitial()
    ensures Parse([]) == Initial
  {
    ParseOne();
  }

  /** A search clears the genre, resets the filter and the page, and shows the term. */
  lemma SearchEffect(cur: QueryState, q: string)
    ensures Next(cur, Search(q)) == QueryState("all", Int(1), None, q)
  {
    ParseSerialise(Request(cur, Search(q)));
  }

  /** Picking a genre clears the search, resets the filter and the page, and
      shows the genre, 0 and "all genres" included. */
  lemma SelectGenreEffect(cur: QueryState, id: Option<Num>)
    ensures Next(cur, SelectGenre(id)) == QueryState("all", Int(1), id, "")
  {
    ParseSerialise(Request(cur, SelectGenre(id)));
  }

  /** Picking a filter clears the genre and the search and resets the page;
      the empty filter reads back as "all". */
  lemma SelectFilterEffect(cur: QueryState, f: string)
    ensures Next(cur, SelectFilter(f)) == QueryState(if f == "" then "all" else f, Int(1), None, "")
  {
    ParseSerialise(Request(cur, SelectFilter(f)));
  }

  /** A page change keeps the filter, the genre and the search of a state read
      from the URL; the new page shows when it is above 1 and reads back as 1
      otherwise (NaN and non-positive pages included). */
  lemma ChangePageEffect(cur: QueryState, p: Num)
    requires cur.filter != ""
    ensures Next(cur, ChangePage(p)) == cur.(page := if Greater(p, 1) then p else Int(1))
  {
    ParseSerialise(Request(cur, ChangePage(p)));
  }

  /** Moving to a page number of at least 1 changes only the page. */
  lemma ChangeToPage(cur: QueryState, n: int)
    requires cur.filter != "" && n >= 1
    ensures Next(cur, ChangePage(Int(n))) == cur.(page := Int(n))
  {
    ChangePageEffect(cur, Int(n));
  }
}
