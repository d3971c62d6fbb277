/** The list screen of app/index.tsx: pages flattened into summaries, the
    search filter, the sort, and the rule that asks for the next page. */
module PokemonList {
  import opened Wrappers
  import opened JsNumber
  import opened JsString
  import Pokemon
  import opened FetchQuery

  /** `{ name, id }` of one list entry; an id that failed to parse is
      NaN, here `None`. */
  datatype Summary = Summary(name: string, id: Option<int>)

  function Summarize(r: NamedResource): Summary {
    Summary(r.name, Pokemon.PokemonId(r.url))
  }

  /** A resource whose URL ends in `/<n>/` is summarised by its name and
      the id `n`. */
  lemma SummaryOfResource(r: NamedResource, prefix: string, n: int)
    requires r.url == prefix + "/" + IntToString(n) + "/"
    ensures Summarize(r) == Summary(r.name, Some(n))
  {
    Pokemon.PokemonIdRoundTrip(prefix, n);
  }

  function SummarizeAll(rs: seq<NamedResource>): (s: seq<Summary>)
    ensures |s| == |rs|
    ensures forall i :: 0 <= i < |rs| ==> s[i] == Summarize(rs[i])
  {
    seq(|rs|, i requires 0 <= i < |rs| => Summarize(rs[i]))
  }

  function TotalResults(pages: seq<ListPage>): nat {
    if |pages| == 0 then 0 else |pages[0].results| + TotalResults(pages[1..])
  }

  /** `pages.flatMap(page => page.results.map(...))`. */
  function Flatten(pages: seq<ListPage>): (s: seq<Summary>)
    ensures |s| == TotalResults(pages)
  {
    if |pages| == 0 then [] else SummarizeAll(pages[0].results) + Flatten(pages[1..])
  }

  /** `data?.pages.flatMap(...) ?? []`: no data, no summaries. */
  function Summaries(data: Option<seq<ListPage>>): (s: seq<Summary>)
    ensures data.None? ==> s == []
  {
    match data
    case None => []
    case Some(pages) => Flatten(pages)
  }

  /** Flattening respects concatenation of the page list. */
  lemma {:induction false} FlattenAppend(a: seq<ListPage>, b: seq<ListPage>)
    ensures Flatten(a + b) == Flatten(a) + Flatten(b)
    decreases |a|
  {
    if |a| == 0 {
      assert a + b == b;
    } else {
      assert (a + b)[0] == a[0] && (a + b)[1..] == a[1..] + b;
      FlattenAppend(a[1..], b);
    }
  }

  /** A newly loaded page appends its summaries, in order, after all the
      earlier ones. */
  lemma FlattenNewPage(pages: seq<ListPage>, page: ListPage)
    ensures Flatten(pages + [page]) == Flatten(pages) + SummarizeAll(page.results)
  {
    FlattenAppend(pages, [page]);
    assert [page][1..] == [];
    assert SummarizeAll(page.results) + [] == SummarizeAll(page.results);
  }

  // ---------------------------------------------------------------------
  // Search
  // ---------------------------------------------------------------------

  /** The filter predicate: the name contains the lower-cased query, or the
      id prints exactly as the query. */
  predicate Matches(p: Summary, query: string)
    ensures Contains(p.name, query) && (forall c :: c in query ==> !IsUpperAscii(c)) ==> Matches(p, query)
  {
    assert (forall c :: c in query ==> !IsUpperAscii(c)) ==> ToLower(query) == query by {
      if forall c :: c in query ==> !IsUpperAscii(c) {
        assert forall i :: 0 <= i < |query| ==> query[i] in query;
      }
    }
    Contains(p.name, ToLower(query)) || NumberText(p.id) == query
  }

  function Filter(s: seq<Summary>, query: string): (r: seq<Summary>)
    ensures forall x :: x in r <==> x in s && Matches(x, query)
    ensures forall x :: multiset(r)[x] == if Matches(x, query) then multiset(s)[x] else 0
  {
    if |s| == 0 then []
    else
      assert s == [s[0]] + s[1..];
      (if Matches(s[0], query) then [s[0]] else []) + Filter(s[1..], query)
  }

  /** `search ? pokemons.filter(...) : pokemons`: the empty query is the
      only falsy string. */
  function Visible(s: seq<Summary>, query: string): (v: seq<Summary>)
    ensures query == "" ==> v == s
    ensures query != "" ==> forall x :: x in v <==> x in s && Matches(x, query)
    ensures multiset(v) <= multiset(s)
  {
    if query == "" then s else Filter(s, query)
  }

  /** `a` is `b` with some entries dropped and none reordered. */
  predicate IsSubsequence<T(==)>(a: seq<T>, b: seq<T>)
    decreases |b|
  {
    if |b| == 0 then |a| == 0
    else (|a| > 0 && a[0] == b[0] && IsSubsequence(a[1..], b[1..])) || IsSubsequence(a, b[1..])
  }

  lemma {:induction false} FilterIsSubsequence(s: seq<Summary>, query: string)
    ensures IsSubsequence(Filter(s, query), s)
    decreases |s|
  {
    if |s| > 0 {
      FilterIsSubsequence(s[1..], query);
      var r := Filter(s, query);
      if Matches(s[0], query) {
        assert r[0] == s[0] && r[1..] == Filter(s[1..], query);
      } else {
        assert r == Filter(s[1..], query);
      }
    }
  }

  /** Exactness of the id clause: a query with a leading zero never equals
      an id's text, so "025" does not find id 25 through it. */
  lemma IdClauseRejectsLeadingZero(id: Option<int>, query: string)
    requires |query| > 1 && query[0] == '0'
    ensures NumberText(id) != query
  {
  }

  /** Typing the id finds the entry. */
  lemma SearchFindsId(p: Summary, query: string)
    requires p == Summary("pikachu", Some(25)) && query == "25"
    ensures Matches(p, query)
  {
    TextOf25(25);
  }

  /** A zero-padded id, as the card shows it, does not find the entry. */
  lemma SearchMissesPaddedId(p: Summary, query: string)
    requires p == Summary("pikachu", Some(25)) && query == "025"
    ensures !Matches(p, query)
  {
    IdClauseRejectsLeadingZero(p.id, query);
    assert ToLower(query) == query;
    assert '0' !in p.name;
    if Contains(p.name, query) {
      ContainsFirstChar(p.name, query);
    }
  }

  /** A prefix of the id does not find the entry: the id clause is an
      exact comparison. */
  lemma SearchMissesIdPrefix(p: Summary, query: string)
    requires p == Summary("pikachu", Some(25)) && query == "2"
    ensures !Matches(p, query)
  {
    TextOf25(25);
    assert ToLower(query) == query;
    assert '2' !in p.name;
    if Contains(p.name, query) {
      ContainsFirstChar(p.name, query);
    }
  }

  /** Upper-case input finds a lower-case name. */
  lemma SearchIgnoresCase(p: Summary, query: string)
    requires p == Summary("pikachu", Some(25)) && query == "PIKA"
    ensures Matches(p, query)
  {
    assert ToLower(query) == "pika";
    assert StartsWith(p.name[0..], "pika");
  }

  /** Typing "NaN" finds every entry whose id did not parse. */
  lemma SearchFindsUnparsedIds(p: Summary)
    requires p.id.None?
    ensures Matches(p, "NaN")
  {
  }

  // ---------------------------------------------------------------------
  // Sort
  // ---------------------------------------------------------------------

  datatype SortKey = ById | ByName

  /** `a[sortKey] < b[sortKey]`; any comparison with NaN is false. */
  predicate KeyLess(a: Summary, b: Summary, key: SortKey) {
    match key
    case ById => a.id.Some? && b.id.Some? && a.id.value < b.id.value
    case ByName => StrLess(a.name, b.name)
  }

  /** The comparator `(a, b) => (a[sortKey] < b[sortKey] ? -1 : 1)`. */
  function Compare(a: Summary, b: Summary, key: SortKey): (c: int)
    ensures c == -1 || c == 1
    ensures c == -1 <==> KeyLess(a, b, key)
    ensures key == ById && (a.id.None? || b.id.None?) ==> c == 1
  {
    if KeyLess(a, b, key) then -1 else 1
  }

  lemma KeyLessIrreflexive(a: Summary, key: SortKey)
    ensures !KeyLess(a, a, key)
  {
    if key == ByName {
      StrLessIrreflexive(a.name);
    }
  }

  lemma KeyLessTransitive(a: Summary, b: Summary, c: Summary, key: SortKey)
    requires KeyLess(a, b, key) && KeyLess(b, c, key)
    ensures KeyLess(a, c, key)
  {
    if key == ByName {
      StrLessTransitive(a.name, b.name, c.name);
    }
  }

  lemma KeyLessAsymmetric(a: Summary, b: Summary, key: SortKey)
    ensures !(KeyLess(a, b, key) && KeyLess(b, a, key))
  {
    if KeyLess(a, b, key) && KeyLess(b, a, key) {
      KeyLessTransitive(a, b, a, key);
      KeyLessIrreflexive(a, key);
    }
  }

  /** The comparator never answers 0, and it is antisymmetric exactly on
      pairs whose keys are ordered; on equal (or NaN) keys it answers 1
      both ways. */
  lemma CompareDefect(a: Summary, b: Summary, key: SortKey)
    ensures Compare(a, b, key) != 0
    ensures Compare(a, b, key) == -Compare(b, a, key) <==> KeyLess(a, b, key) || KeyLess(b, a, key)
    ensures !KeyLess(a, b, key) && !KeyLess(b, a, key) ==> Compare(a, b, key) == 1 == Compare(b, a, key)
  {
    KeyLessAsymmetric(a, b, key);
  }

  /** Equal names make the comparator inconsistent. */
  lemma CompareTieExample()
    ensures Compare(Summary("mew", Some(151)), Summary("mew", Some(150)), ByName) == 1
    ensures Compare(Summary("mew", Some(150)), Summary("mew", Some(151)), ByName) == 1
  {
    StrLessIrreflexive("mew");
  }

  predicate Ascending(s: seq<Summary>, key: SortKey) {
    forall i, j :: 0 <= i < j < |s| ==> KeyLess(s[i], s[j], key)
  }

  /** Every two entries are ordered by the key one way or the other: the
      keys are pairwise distinct and none is NaN. */
  predicate DistinctKeys(s: seq<Summary>, key: SortKey) {
    forall i, j :: 0 <= i < j < |s| ==> KeyLess(s[i], s[j], key) || KeyLess(s[j], s[i], key)
  }

  /** Insert `x` before the first entry the comparator places after it. */
  function Insert(x: Summary, s: seq<Summary>, key: SortKey): (r: seq<Summary>)
    ensures multiset(r) == multiset(s) + multiset{x}
  {
    if |s| == 0 then [x]
    else if Compare(x, s[0], key) < 0 then [x] + s
    else
      assert s == [s[0]] + s[1..];
      [s[0]] + Insert(x, s[1..], key)
  }

  /** `[...list].sort(comparator)`, as insertion sort. With pairwise
      distinct keys every correct sort gives the same list (see
      `SortedUnique`); on ties the engine's order is not specified and the
      model only keeps the entries. */
  function SortBy(s: seq<Summary>, key: SortKey): (r: seq<Summary>)
    ensures multiset(r) == multiset(s)
  {
    if |s| == 0 then []
    else
      assert s == [s[0]] + s[1..];
      Insert(s[0], SortBy(s[1..], key), key)
  }

  lemma {:induction false} InsertAscending(x: Summary, s: seq<Summary>, key: SortKey)
    requires Ascending(s, key)
    requires forall y :: y in s ==> KeyLess(x, y, key) || KeyLess(y, x, key)
    ensures Ascending(Insert(x, s, key), key)
    decreases |s|
  {
    if |s| > 0 {
      if KeyLess(x, s[0], key) {
        PrependAscending(x, s, key);
      } else {
        assert KeyLess(s[0], x, key);
        var t := Insert(x, s[1..], key);
        InsertAscending(x, s[1..], key);
        TailAbove(s, key);
        InsertKeepsLowerBound(s[0], x, s[1..], key);
        PrependAscending(s[0], t, key);
      }
    }
  }

  /** An entry below the first of an ascending list can go in front. */
  lemma PrependAscending(x: Summary, s: seq<Summary>, key: SortKey)
    requires Ascending(s, key)
    requires |s| == 0 || KeyLess(x, s[0], key)
    ensures Ascending([x] + s, key)
  {
    var r := [x] + s;
    forall j | 1 <= j < |r| ensures KeyLess(r[0], r[j], key) {
      if j > 1 {
        KeyLessTransitive(x, s[0], s[j - 1], key);
      }
    }
  }

  /** An entry below `x` and below every entry of `s` is below every entry
      of the list with `x` inserted. */
  lemma InsertKeepsLowerBound(lo: Summary, x: Summary, s: seq<Summary>, key: SortKey)
    requires KeyLess(lo, x, key)
    requires forall y :: y in s ==> KeyLess(lo, y, key)
    ensures forall y :: y in Insert(x, s, key) ==> KeyLess(lo, y, key)
  {
    var t := Insert(x, s, key);
    forall y | y in t ensures KeyLess(lo, y, key) {
      assert y in multiset(t);
      if y != x {
        assert y in multiset(s);
      }
    }
  }

  /** In an ascending list the first entry is below all the others. */
  lemma TailAbove(s: seq<Summary>, key: SortKey)
    requires Ascending(s, key) && |s| > 0
    ensures forall y :: y in s[1..] ==> KeyLess(s[0], y, key)
  {
    forall y | y in s[1..] ensures KeyLess(s[0], y, key) {
      var k :| 0 <= k < |s[1..]| && s[1..][k] == y;
      assert s[k + 1] == y;
    }
  }

  lemma {:induction false} SortAscending(s: seq<Summary>, key: SortKey)
    requires DistinctKeys(s, key)
    ensures Ascending(SortBy(s, key), key)
    decreases |s|
  {
    if |s| > 0 {
      var t := SortBy(s[1..], key);
      SortAscending(s[1..], key);
      forall y | y in t ensures KeyLess(s[0], y, key) || KeyLess(y, s[0], key) {
        assert y in multiset(s[1..]);
        var k :| 0 <= k < |s[1..]| && s[1..][k] == y;
        assert s[k + 1] == y;
      }
      InsertAscending(s[0], t, key);
    }
  }

  lemma FirstIsLeast(s: seq<Summary>, key: SortKey, y: Summary)
    requires Ascending(s, key) && |s| > 0 && y in s && y != s[0]
    ensures KeyLess(s[0], y, key)
  {
    var k :| 0 <= k < |s| && s[k] == y;
  }

  lemma SameHead(a: seq<Summary>, b: seq<Summary>, key: SortKey)
    requires Ascending(a, key) && Ascending(b, key)
    requires |a| > 0 && |b| > 0 && multiset(a) == multiset(b)
    ensures a[0] == b[0]
  {
    assert a[0] in multiset(b) && b[0] in multiset(a);
    if a[0] != b[0] {
      FirstIsLeast(a, key, b[0]);
      FirstIsLeast(b, key, a[0]);
      KeyLessAsymmetric(a[0], b[0], key);
    }
  }

  lemma AscendingTail(a: seq<Summary>, key: SortKey)
    requires Ascending(a, key) && |a| > 0
    ensures Ascending(a[1..], key)
  {
    forall i, j | 0 <= i < j < |a[1..]| ensures KeyLess(a[1..][i], a[1..][j], key) {
      assert a[1..][i] == a[i + 1] && a[1..][j] == a[j + 1];
    }
  }

  lemma TailMultiset(a: seq<Summary>)
    requires |a| > 0
    ensures multiset(a[1..]) == multiset(a) - multiset{a[0]}
  {
    assert a == [a[0]] + a[1..];
  }

  /** There is only one ascending arrangement of a collection of entries,
      so any correct sorting algorithm yields the model's list. */
  lemma {:induction false} SortedUnique(a: seq<Summary>, b: seq<Summary>, key: SortKey)
    requires Ascending(a, key) && Ascending(b, key)
    requires multiset(a) == multiset(b)
    ensures a == b
    decreases |a|
  {
    assert |a| == |multiset(a)| == |multiset(b)| == |b|;
    if |a| > 0 {
      SameHead(a, b, key);
      TailMultiset(a);
      TailMultiset(b);
      AscendingTail(a, key);
      AscendingTail(b, key);
      SortedUnique(a[1..], b[1..], key);
      assert a == [a[0]] + a[1..] && b == [b[0]] + b[1..];
    }
  }

  lemma DistinctCons(x: Summary, t: seq<Summary>, key: SortKey)
    requires DistinctKeys(t, key)
    requires forall y :: y in t ==> KeyLess(x, y, key) || KeyLess(y, x, key)
    ensures DistinctKeys([x] + t, key)
  {
    var r := [x] + t;
    forall i, j | 0 <= i < j < |r|
      ensures KeyLess(r[i], r[j], key) || KeyLess(r[j], r[i], key)
    {
      if i == 0 {
        assert r[j] == t[j - 1] && r[j] in t;
      } else {
        assert r[i] == t[i - 1] && r[j] == t[j - 1];
      }
    }
  }

  lemma {:induction false} FilterKeepsDistinct(s: seq<Summary>, query: string, key: SortKey)
    requires DistinctKeys(s, key)
    ensures DistinctKeys(Filter(s, query), key)
    decreases |s|
  {
    if |s| > 0 {
      var t := Filter(s[1..], query);
      assert DistinctKeys(s[1..], key) by {
        forall i, j | 0 <= i < j < |s[1..]|
          ensures KeyLess(s[1..][i], s[1..][j], key) || KeyLess(s[1..][j], s[1..][i], key)
        {
          assert s[1..][i] == s[i + 1] && s[1..][j] == s[j + 1];
        }
      }
      FilterKeepsDistinct(s[1..], query, key);
      if Matches(s[0], query) {
        forall y | y in t ensures KeyLess(s[0], y, key) || KeyLess(y, s[0], key) {
          var k :| 0 <= k < |s[1..]| && s[1..][k] == y;
          assert s[k + 1] == y;
        }
        DistinctCons(s[0], t, key);
        assert Filter(s, query) == [s[0]] + t;
      } else {
        assert Filter(s, query) == t;
      }
    }
  }

  // ---------------------------------------------------------------------
  // The displayed list
  // ---------------------------------------------------------------------

  /** `filteredPokemons`: the visible summaries sorted by the key. */
  function Displayed(data: Option<seq<ListPage>>, query: string, key: SortKey): (shown: seq<Summary>)
    ensures multiset(shown) <= multiset(Summaries(data))
  {
    var loaded := Summaries(data);
    var v := Visible(loaded, query);
    var shown := SortBy(v, key);
    assert multiset(shown) == multiset(v) <= multiset(loaded);
    shown
  }

  /** With an empty query nothing is dropped or duplicated. */
  lemma DisplayedEmptyQuery(data: Option<seq<ListPage>>, key: SortKey)
    ensures multiset(Displayed(data, "", key)) == multiset(Summaries(data))
  {
  }

  /** With a query, an entry is shown exactly when it is loaded and
      matches, as often as it is loaded. */
  lemma DisplayedSearch(data: Option<seq<ListPage>>, query: string, key: SortKey)
    requires query != ""
    ensures forall x :: x in Displayed(data, query, key) <==> x in Summaries(data) && Matches(x, query)
    ensures forall x :: multiset(Displayed(data, query, key))[x]
                     == if Matches(x, query) then multiset(Summaries(data))[x] else 0
  {
    var d := Displayed(data, query, key);
    forall x ensures x in d <==> x in multiset(d) {
    }
  }

  /** With pairwise distinct keys the list is strictly ascending, and it is
      the only ascending arrangement of the visible entries. */
  lemma DisplayedOrder(data: Option<seq<ListPage>>, query: string, key: SortKey)
    requires DistinctKeys(Summaries(data), key)
    ensures Ascending(Displayed(data, query, key), key)
    ensures forall r :: Ascending(r, key) && multiset(r) == multiset(Visible(Summaries(data), query))
                    ==> r == Displayed(data, query, key)
  {
    var v := Visible(Summaries(data), query);
    if query != "" {
      FilterKeepsDistinct(Summaries(data), query, key);
    }
    SortAscending(v, key);
    forall r | Ascending(r, key) && multiset(r) == multiset(v)
      ensures r == Displayed(data, query, key)
    {
      SortedUnique(r, SortBy(v, key), key);
    }
  }

  // ---------------------------------------------------------------------
  // Pagination
  // ---------------------------------------------------------------------

  /** The app's own rule for `onEndReached`: `search ? undefined :
      fetchNextPage()`. A string is falsy only when empty, so the next page
      is asked for exactly when no query is typed, that is only while the
      list shows every loaded entry. */
  function EndReached(query: string): (calls: bool)
    ensures calls <==> query == ""
    ensures calls ==> forall s: seq<Summary> :: Visible(s, query) == s
  {
    if query != "" then false else true
  }

  /** The URL the `fetchNextPage()` call of `EndReached` then requests,
      under react-query's paging: the last loaded page's next page
      parameter, and no request when that parameter is null or no page has
      loaded yet (see README, "Left out"). */
  function EndReachedRequest(data: Option<seq<ListPage>>, query: string): (url: Option<string>)
    ensures url.Some? ==> EndReached(query)
    ensures url.Some? <==> (EndReached(query) && data.Some? && |data.value| > 0
                            && data.value[|data.value| - 1].next.Link?)
    ensures url.Some? ==> url.value == data.value[|data.value| - 1].next.url
  {
    if !EndReached(query) then None
    else match data
      case None => None
      case Some(pages) => if |pages| == 0 then None else NextPageParam(pages[|pages| - 1])
  }
}
