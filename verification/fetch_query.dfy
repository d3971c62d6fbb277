/** URL building in hooks/useFetchQuery.ts: the `[key]` placeholder
    substitution of `useFetchQuery` and the page parameters of
    `useInfiniteFetchQuery`. Fetching and caching are not modelled. */
module FetchQuery {
  import opened Wrappers
  import opened JsNumber
  import opened JsString

  const Endpoint := "https://pokeapi.co/api/v2"

  /** One entry of `Object.entries(params)`, in enumeration order. */
  datatype Param = Param(key: string, value: NumOrString)

  function Placeholder(key: string): (p: string)
    ensures |p| == |key| + 2 && p[0] == '['
  {
    "[" + key + "]"
  }

  /** The `reduce` over the entries: each `replaceAll('[key]', value)` is
      applied to the result of the previous one. Every placeholder starts
      with `[`, so a path without one comes through unchanged. */
  function Substitute(path: string, params: seq<Param>): (url: string)
    ensures '[' !in path ==> url == path
    decreases |params|
  {
    if |params| == 0 then path
    else
      var p := Placeholder(params[0].key);
      var v := ToJsString(params[0].value);
      assert '[' !in path ==> ReplaceAll(path, p, v) == path by {
        if '[' !in path { ReplaceAllKeeps(path, p, v); }
      }
      Substitute(ReplaceAll(path, p, v), params[1..])
  }

  /** The `localUrl` of `useFetchQuery(path, params)`; a missing `params`
      behaves as an empty record, and without entries the path is appended
      unchanged. */
  function LocalUrl(path: string, params: Option<seq<Param>>): (url: string)
    ensures StartsWith(url, Endpoint)
    ensures params.None? || params.value == [] ==> url == Endpoint + path
  {
    var url := Endpoint + Substitute(path, if params.None? then [] else params.value);
    assert url[..|Endpoint|] == Endpoint;
    url
  }

  /** An entry whose placeholder does not occur changes nothing; with no
      placeholder of any key present the path comes through unchanged. */
  lemma {:induction false} SubstituteAbsent(path: string, params: seq<Param>)
    requires forall i :: 0 <= i < |params| ==> !Contains(path, Placeholder(params[i].key))
    ensures Substitute(path, params) == path
    decreases |params|
  {
    if |params| > 0 {
      ReplaceAllAbsent(path, Placeholder(params[0].key), ToJsString(params[0].value));
      SubstituteAbsent(path, params[1..]);
    }
  }

  /** The detail screen's request for id 25. */
  lemma LocalUrlExample()
    ensures LocalUrl("/pokemon/[id]", Some([Param("id", Num(Some(25)))])) == "https://pokeapi.co/api/v2/pokemon/25"
  {
    SubstituteOne("/pokemon/[id]", "id", Num(Some(25)));
    TextOf25(25);
    IdPlaceholder("id");
    IdPathExample("/pokemon/[id]", "/pokemon/", "[id]", "25");
    IdPathSpelled("/pokemon/", "25");
    IdUrlSpelled(Endpoint, "/pokemon/25");
  }

  /** One entry substitutes its own placeholder and nothing else. */
  lemma SubstituteOne(path: string, key: string, value: NumOrString)
    ensures Substitute(path, [Param(key, value)]) == ReplaceAll(path, Placeholder(key), ToJsString(value))
  {
    var params := [Param(key, value)];
    assert params[1..] == [];
  }

  lemma IdPlaceholder(key: string)
    requires key == "id"
    ensures Placeholder(key) == "[id]"
  {
  }

  lemma IdPathExample(path: string, a: string, p: string, r: string)
    requires path == "/pokemon/[id]" && a == "/pokemon/" && p == "[id]" && r == "25"
    ensures ReplaceAll(path, p, r) == a + r
  {
    assert path == a + p + [];
    ReplaceAllOnce(a, [], p, r);
    assert a + r + [] == a + r;
  }

  lemma IdPathSpelled(a: string, r: string)
    requires a == "/pokemon/" && r == "25"
    ensures a + r == "/pokemon/25"
  {
  }

  lemma IdUrlSpelled(e: string, t: string)
    requires e == Endpoint && t == "/pokemon/25"
    ensures e + t == "https://pokeapi.co/api/v2/pokemon/25"
  {
  }

  // ---------------------------------------------------------------------
  // Paths as templates
  // ---------------------------------------------------------------------

  predicate BracketFree(s: string) {
    '[' !in s && ']' !in s
  }

  /** A path read as literal text and `[name]` holes. */
  datatype Piece = Lit(text: string) | Hole(name: string)

  function Inner(p: Piece): string {
    match p
    case Lit(s) => s
    case Hole(n) => n
  }

  /** Neither the literal text nor a hole name holds a bracket, so the
      brackets of the path are exactly those of its holes. */
  predicate WellFormed(t: seq<Piece>) {
    forall i :: 0 <= i < |t| ==> BracketFree(Inner(t[i]))
  }

  function PieceText(x: Piece): string {
    match x
    case Lit(s) => s
    case Hole(n) => Placeholder(n)
  }

  function Render(t: seq<Piece>): string {
    if |t| == 0 then "" else PieceText(t[0]) + Render(t[1..])
  }

  predicate NoHole(t: seq<Piece>, key: string) {
    forall i :: 0 <= i < |t| ==> t[i] != Hole(key)
  }

  /** Replace every hole named `key` by the literal `value`. */
  function Fill(t: seq<Piece>, key: string, value: string): (f: seq<Piece>)
    ensures |f| == |t|
    ensures NoHole(f, key)
    ensures forall k :: NoHole(t, k) ==> NoHole(f, k)
    ensures WellFormed(t) && BracketFree(value) ==> WellFormed(f)
    ensures NoHole(t, key) ==> f == t
  {
    if |t| == 0 then []
    else
      var head := if t[0] == Hole(key) then Lit(value) else t[0];
      assert forall i :: 0 <= i < |t[1..]| ==> t[1..][i] == t[i + 1];
      assert forall k :: NoHole(t, k) ==> NoHole(t[1..], k);
      [head] + Fill(t[1..], key, value)
  }

  function FillAll(t: seq<Piece>, params: seq<Param>): seq<Piece>
    decreases |params|
  {
    if |params| == 0 then t
    else FillAll(Fill(t, params[0].key, ToJsString(params[0].value)), params[1..])
  }

  predicate ParamsBracketFree(params: seq<Param>) {
    forall i :: 0 <= i < |params| ==> BracketFree(params[i].key) && BracketFree(ToJsString(params[i].value))
  }

  /** A hole with another name is not a match for `[key]`. */
  lemma OtherHoleNoMatch(n: string, key: string, rest: string)
    requires BracketFree(n) && BracketFree(key) && n != key
    ensures !StartsWith(Placeholder(n) + rest, Placeholder(key))
  {
    var s := Placeholder(n) + rest;
    var p := Placeholder(key);
    if |p| <= |s| {
      var m: nat;
      if |n| == |key| {
        var j :| 0 <= j < |n| && n[j] != key[j];
        m := j + 1;
        assert s[m] == n[j] && p[m] == key[j];
      } else if |key| < |n| {
        m := |key| + 1;
        assert s[m] == n[|key|] && n[|key|] in n;
        assert p[m] == ']';
      } else {
        m := |n| + 1;
        assert s[m] == ']';
        assert p[m] == key[|n|] && key[|n|] in key;
      }
      assert s[..|p|][m] != p[m];
    }
  }

  /** On a well-formed path, `replaceAll('[key]', value)` fills exactly the
      holes named `key`. */
  lemma {:induction false} ReplaceAllFillsHoles(t: seq<Piece>, key: string, value: string)
    requires WellFormed(t) && BracketFree(key)
    ensures ReplaceAll(Render(t), Placeholder(key), value) == Render(Fill(t, key, value))
    decreases |t|
  {
    if |t| > 0 {
      var rest := Render(t[1..]);
      assert WellFormed(t[1..]) by {
        forall i | 0 <= i < |t[1..]| ensures BracketFree(Inner(t[1..][i])) {
          assert t[1..][i] == t[i + 1];
        }
      }
      ReplaceAllFillsHoles(t[1..], key, value);
      assert BracketFree(Inner(t[0]));
      ReplaceAllPiece(t[0], rest, key, value);
      var f := Fill(t, key, value);
      assert f[1..] == Fill(t[1..], key, value);
    }
  }

  /** One piece, then the rest of the path: the piece is filled on its own
      and the scan goes on after it. */
  lemma ReplaceAllPiece(x: Piece, rest: string, key: string, value: string)
    requires BracketFree(Inner(x)) && BracketFree(key)
    ensures ReplaceAll(PieceText(x) + rest, Placeholder(key), value)
         == PieceText(if x == Hole(key) then Lit(value) else x) + ReplaceAll(rest, Placeholder(key), value)
  {
    var p := Placeholder(key);
    match x
    case Lit(s) =>
      ReplaceAllSkip(s, rest, p, value);
    case Hole(n) =>
      if n == key {
        ReplaceAllMatch(rest, p, value);
      } else {
        OtherHoleSkipped(n, key, rest, value);
      }
  }

  /** A hole with another name is copied through. */
  lemma OtherHoleSkipped(n: string, key: string, rest: string, value: string)
    requires BracketFree(n) && BracketFree(key) && n != key
    ensures ReplaceAll(Placeholder(n) + rest, Placeholder(key), value)
         == Placeholder(n) + ReplaceAll(rest, Placeholder(key), value)
  {
    var p := Placeholder(key);
    var s := Placeholder(n) + rest;
    var tail := n + "]";
    OtherHoleNoMatch(n, key, rest);
    assert s[1..] == tail + rest;
    ReplaceAllSkip(tail, rest, p, value);
    assert Placeholder(n) == "[" + tail;
    var rr := ReplaceAll(rest, p, value);
    assert "[" + (tail + rr) == "[" + tail + rr;
  }

  /** The fold of `useFetchQuery` fills, one entry after another, the holes
      of the path. */
  lemma {:induction false} SubstituteFillsHoles(t: seq<Piece>, params: seq<Param>)
    requires WellFormed(t) && ParamsBracketFree(params)
    ensures Substitute(Render(t), params) == Render(FillAll(t, params))
    decreases |params|
  {
    if |params| > 0 {
      var v := ToJsString(params[0].value);
      ReplaceAllFillsHoles(t, params[0].key, v);
      SubstituteFillsHoles(Fill(t, params[0].key, v), params[1..]);
    }
  }

  lemma {:induction false} FillAllKeepsNoHole(t: seq<Piece>, params: seq<Param>, key: string)
    requires NoHole(t, key)
    ensures NoHole(FillAll(t, params), key)
    decreases |params|
  {
    if |params| > 0 {
      FillAllKeepsNoHole(Fill(t, params[0].key, ToJsString(params[0].value)), params[1..], key);
    }
  }

  lemma {:induction false} FillAllShape(t: seq<Piece>, params: seq<Param>)
    requires WellFormed(t) && ParamsBracketFree(params)
    ensures WellFormed(FillAll(t, params))
    ensures forall i :: 0 <= i < |params| ==> NoHole(FillAll(t, params), params[i].key)
    decreases |params|
  {
    if |params| > 0 {
      var f := Fill(t, params[0].key, ToJsString(params[0].value));
      FillAllShape(f, params[1..]);
      FillAllKeepsNoHole(f, params[1..], params[0].key);
      forall i | 1 <= i < |params| ensures NoHole(FillAll(t, params), params[i].key) {
        assert params[1..][i - 1] == params[i];
      }
    }
  }

  /** After substitution into a well-formed path with bracket-free keys and
      values, no placeholder of any key is left. */
  lemma NoPlaceholderLeft(t: seq<Piece>, params: seq<Param>, i: nat)
    requires WellFormed(t) && ParamsBracketFree(params) && i < |params|
    ensures !Contains(Substitute(Render(t), params), Placeholder(params[i].key))
  {
    SubstituteFillsHoles(t, params);
    FillAllShape(t, params);
    var f := FillAll(t, params);
    var key := params[i].key;
    var p := Placeholder(key);
    var w := p + "x";
    ReplaceAllFillsHoles(f, key, w);
    assert Fill(f, key, w) == f;
    ReplaceAllLonger(Render(f), p, w);
  }

  /** Without the well-formedness condition the placeholder can survive:
      a hole nested in brackets, filled with its own key, re-forms it even
      though the value holds no bracket. */
  lemma NestedPlaceholderSurvives()
    ensures Substitute("[[id]]", [Param("id", Text("id"))]) == "[id]"
    ensures Contains(Substitute("[[id]]", [Param("id", Text("id"))]), Placeholder("id"))
  {
    SubstituteOne("[[id]]", "id", Text("id"));
    IdPlaceholder("id");
    NestedHole("[[id]]", "[", "[id]", "]", "id");
    NestedHoleSpelled("[", "id", "]");
    ContainsItself("[id]");
  }

  lemma NestedHole(s: string, a: string, p: string, b: string, r: string)
    requires s == "[[id]]" && a == "[" && p == "[id]" && b == "]" && r == "id"
    ensures ReplaceAll(s, p, r) == a + r + b
  {
    assert !StartsWith(s, p) by {
      assert s[1] != p[1];
    }
    assert s[1..] == p + b;
    ReplaceAllMatch(b, p, r);
    ReplaceAllShort(b, p, r);
    assert a + (r + b) == a + r + b;
  }

  lemma NestedHoleSpelled(a: string, r: string, b: string)
    requires a == "[" && r == "id" && b == "]"
    ensures a + r + b == "[id]"
  {
  }

  // ---------------------------------------------------------------------
  // Pages of the list endpoint
  // ---------------------------------------------------------------------

  /** The `next` member of a page: absent, null, or a URL. */
  datatype NextField = Missing | Null | Link(url: string)

  datatype NamedResource = NamedResource(name: string, url: string)

  /** A page of the `/pokemon?limit=21` endpoint. */
  datatype ListPage = ListPage(count: int, next: NextField, results: seq<NamedResource>)

  /** `initialPageParam`: the first page is fetched at the same URL a
      plain fetch of the path would use. */
  function InitialPageParam(path: string): (url: string)
    ensures url == LocalUrl(path, None)
  {
    Endpoint + path
  }

  /** `getNextPageParam(lastPage)`: the page's `next` when that member is
      present, otherwise null; `None` stands for null. */
  function NextPageParam(lastPage: ListPage): (param: Option<string>)
    ensures param.None? <==> !lastPage.next.Link?
    ensures param.Some? ==> param.value == lastPage.next.url
  {
    match lastPage.next
    case Link(url) => Some(url)
    case Null => None
    case Missing => None
  }
}
