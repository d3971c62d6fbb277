/** The helpers of app/functions/pokemon.ts: reading an id out of a
    resource URL, the artwork URL template, the weight and height captions
    and the default stat table, plus the fallback to that table used by the
    detail page. */
module Pokemon {
  import opened Wrappers
  import opened JsNumber
  import opened JsString

  // ---------------------------------------------------------------------
  // getPokemonId
  // ---------------------------------------------------------------------

  /** `getPokemonId(url)`: parse the second-to-last `/`-separated segment.
      With fewer than two segments `at(-2)` is undefined, and `parseInt`
      then reads the string "undefined". `None` is NaN. */
  function PokemonId(url: string): (id: Option<int>)
    ensures id.Some? ==> '/' in url
  {
    var parts := Split(url, '/');
    SplitNeedsSeparator(url, '/');
    if |parts| < 2 then
      UndefinedIsNotANumber();
      ParseInt("undefined")
    else ParseInt(parts[|parts| - 2])
  }

  lemma UndefinedIsNotANumber()
    ensures ParseInt("undefined") == None
  {
    ParseIntOfNonNumeric("undefined");
  }

  /** The segment read is the one between the last two slashes. */
  lemma PokemonIdReadsSegment(a: string, seg: string, last: string)
    requires '/' !in seg && '/' !in last
    ensures PokemonId(a + "/" + seg + "/" + last) == ParseInt(seg)
  {
    var url := a + "/" + seg + "/" + last;
    assert url == (a + ['/'] + seg) + ['/'] + last;
    SplitAppend(a + ['/'] + seg, last, '/');
    SplitAppend(a, seg, '/');
    SplitWithoutSeparator(seg, '/');
    SplitWithoutSeparator(last, '/');
    var parts := Split(url, '/');
    assert parts == Split(a, '/') + [seg] + [last];
    assert parts[|parts| - 2] == seg;
  }

  /** A URL with a trailing slash gives back the number written before
      it. */
  lemma PokemonIdRoundTrip(prefix: string, id: int)
    ensures PokemonId(prefix + "/" + IntToString(id) + "/") == Some(id)
  {
    var d := IntToString(id);
    assert '/' !in d;
    PokemonIdReadsSegment(prefix, d, "");
    assert prefix + "/" + d + "/" + "" == prefix + "/" + d + "/";
    ParseIntOfIntToString(id);
  }

  /** Without the trailing slash the segment read is "pokemon", which is
      not a number. */
  lemma PokemonIdNeedsTrailingSlash(prefix: string, id: int)
    ensures PokemonId(prefix + "/pokemon/" + IntToString(id)) == None
  {
    var d := IntToString(id);
    assert '/' !in d;
    var seg := "pokemon";
    assert '/' !in seg;
    assert prefix + "/pokemon/" + d == prefix + "/" + seg + "/" + d;
    PokemonIdReadsSegment(prefix, seg, d);
    PokemonIsNotANumber();
  }

  lemma PokemonIsNotANumber()
    ensures ParseInt("pokemon") == None
  {
    ParseIntOfNonNumeric("pokemon");
  }

  // ---------------------------------------------------------------------
  // getPokeArtwork
  // ---------------------------------------------------------------------

  const ArtworkBase := "https://raw.githubusercontent.com/PokeAPI/sprites/master/sprites/pokemon/other/official-artwork/"

  /** `getPokeArtwork(id)` for an id given as a number or a string. An id
      that did not parse is `NaN` and yields `NaN.png`. */
  function ArtworkUrl(id: NumOrString): (url: string)
    ensures StartsWith(url, ArtworkBase) && EndsWith(url, ".png")
    ensures |url| == |ArtworkBase| + |ToJsString(id)| + 4
    ensures url[|ArtworkBase|..|url| - 4] == ToJsString(id)
    ensures id == Num(None) ==> url == ArtworkBase + "NaN.png"
  {
    var text := ToJsString(id);
    var url := ArtworkBase + text + ".png";
    assert url[|ArtworkBase|..|url| - 4] == text;
    assert id == Num(None) ==> url == ArtworkBase + "NaN.png" by {
      if id == Num(None) {
        assert text + ".png" == "NaN.png";
      }
    }
    url
  }

  /** Two ids give the same URL exactly when they print the same, so
      different numbers, `NaN` included, never share an artwork URL. */
  lemma ArtworkUrlInjective(a: NumOrString, b: NumOrString)
    ensures ArtworkUrl(a) == ArtworkUrl(b) <==> ToJsString(a) == ToJsString(b)
    ensures a.Num? && b.Num? && ArtworkUrl(a) == ArtworkUrl(b) ==> a == b
  {
    var ua, ub := ArtworkUrl(a), ArtworkUrl(b);
    if ua == ub {
      assert ua[|ArtworkBase|..|ua| - 4] == ToJsString(a);
      assert ub[|ArtworkBase|..|ub| - 4] == ToJsString(b);
      if a.Num? && b.Num? {
        NumberTextInjective(a.n, b.n);
      }
    }
  }

  // ---------------------------------------------------------------------
  // formatWeight and formatHeight
  // ---------------------------------------------------------------------

  /** `(t / 10).toString()` for an integer number of tenths: the exact
      one-decimal value, with no fraction when it is zero. */
  function TenthsToString(t: int): string {
    var a := if t < 0 then -t else t;
    (if t < 0 then "-" else "") + Decimal(a / 10)
      + (if a % 10 == 0 then "" else "." + [DigitChar(a % 10)])
  }

  /** The shared rule of `formatWeight` and `formatHeight`: `--` for an
      absent or zero value, otherwise the value in tenths with its first
      `.` replaced by `,`, then the unit. */
  function FormatTenths(v: Option<int>, unit: string): string {
    if v.None? || v.value == 0 then "--"
    else ReplaceFirst(TenthsToString(v.value), ".", ",") + unit
  }

  /** `formatWeight(weight)`, weight in hectograms. */
  function FormatWeight(weight: Option<int>): (caption: string)
    ensures caption == "--" <==> weight.None? || weight.value == 0
  {
    var r := FormatTenths(weight, "Kg");
    assert weight.Some? && weight.value != 0 ==> r[|r| - 1] == 'g';
    r
  }

  /** `formatHeight(height)`, height in decimetres. */
  function FormatHeight(height: Option<int>): (caption: string)
    ensures caption == "--" <==> height.None? || height.value == 0
  {
    var r := FormatTenths(height, "m");
    assert height.Some? && height.value != 0 ==> r[|r| - 1] == 'm';
    r
  }

  /** A positive value of tenths reads as its whole part, then a decimal
      comma and the tenths digit only when that digit is not zero, then the
      unit. */
  lemma FormatTenthsPositive(v: int, unit: string)
    requires v > 0
    ensures v % 10 == 0 ==> FormatTenths(Some(v), unit) == Decimal(v / 10) + unit
    ensures v % 10 != 0 ==> FormatTenths(Some(v), unit) == Decimal(v / 10) + "," + [DigitChar(v % 10)] + unit
  {
    if v % 10 == 0 {
      FormatTenthsWhole(v, unit);
    } else {
      FormatTenthsFraction(v, unit);
    }
  }

  /** A multiple of ten prints without a decimal part. */
  lemma FormatTenthsWhole(v: int, unit: string)
    requires v > 0 && v % 10 == 0
    ensures FormatTenths(Some(v), unit) == Decimal(v / 10) + unit
  {
    var whole := Decimal(v / 10);
    assert '.' !in whole;
    assert TenthsToString(v) == whole by {
      assert "" + whole + "" == whole;
    }
    ReplaceFirstAbsentChar(whole, '.', ",");
  }

  /** Any other value prints its tenths digit after a comma. */
  lemma FormatTenthsFraction(v: int, unit: string)
    requires v > 0 && v % 10 != 0
    ensures FormatTenths(Some(v), unit) == Decimal(v / 10) + "," + [DigitChar(v % 10)] + unit
  {
    var whole := Decimal(v / 10);
    var d := [DigitChar(v % 10)];
    assert '.' !in whole;
    assert TenthsToString(v) == whole + ['.'] + d by {
      assert "" + whole + ("." + d) == whole + ['.'] + d;
    }
    ReplaceFirstChar(whole, d, '.', ",");
  }

  lemma FormatWeightPositive(w: int)
    requires w > 0
    ensures w % 10 == 0 ==> FormatWeight(Some(w)) == Decimal(w / 10) + "Kg"
    ensures w % 10 != 0 ==> FormatWeight(Some(w)) == Decimal(w / 10) + "," + [DigitChar(w % 10)] + "Kg"
  {
    FormatTenthsPositive(w, "Kg");
  }

  lemma FormatHeightPositive(h: int)
    requires h > 0
    ensures h % 10 == 0 ==> FormatHeight(Some(h)) == Decimal(h / 10) + "m"
    ensures h % 10 != 0 ==> FormatHeight(Some(h)) == Decimal(h / 10) + "," + [DigitChar(h % 10)] + "m"
  {
    FormatTenthsPositive(h, "m");
  }

  /** A caption holds at most one comma and never a dot, for negative
      values too: only the first `.` is rewritten and there is at most
      one. */
  lemma FormatTenthsSeparators(v: Option<int>, unit: string)
    requires ',' !in unit && '.' !in unit
    ensures CountChar(FormatTenths(v, unit), ',') <= 1
    ensures '.' !in FormatTenths(v, unit)
  {
    if v.Some? && v.value != 0 {
      var t := v.value;
      var a := if t < 0 then -t else t;
      var x := (if t < 0 then "-" else "") + Decimal(a / 10);
      assert '.' !in x && ',' !in x;
      CountAbsent(x, ',');
      CountAbsent(unit, ',');
      if a % 10 == 0 {
        SeparatorsWithoutFraction(t, x, unit);
      } else {
        SeparatorsWithFraction(t, x, unit);
      }
    } else {
      assert FormatTenths(v, unit) == "--";
      CountAbsent("--", ',');
    }
  }

  lemma SeparatorsWithoutFraction(t: int, x: string, unit: string)
    requires t != 0 && (if t < 0 then -t else t) % 10 == 0
    requires x == (if t < 0 then "-" else "") + Decimal((if t < 0 then -t else t) / 10)
    requires '.' !in x && ',' !in x && ',' !in unit && '.' !in unit
    ensures CountChar(FormatTenths(Some(t), unit), ',') == 0
    ensures '.' !in FormatTenths(Some(t), unit)
  {
    assert TenthsToString(t) == x by {
      assert x + "" == x;
    }
    ReplaceFirstAbsentChar(x, '.', ",");
    CountAbsent(x, ',');
    CountAbsent(unit, ',');
    CountCharAppend(x, unit, ',');
  }

  lemma SeparatorsWithFraction(t: int, x: string, unit: string)
    requires t != 0 && (if t < 0 then -t else t) % 10 != 0
    requires x == (if t < 0 then "-" else "") + Decimal((if t < 0 then -t else t) / 10)
    requires '.' !in x && ',' !in x && ',' !in unit && '.' !in unit
    ensures CountChar(FormatTenths(Some(t), unit), ',') == 1
    ensures '.' !in FormatTenths(Some(t), unit)
  {
    var a := if t < 0 then -t else t;
    var d := [DigitChar(a % 10)];
    assert TenthsToString(t) == x + ['.'] + d by {
      assert x + ("." + d) == x + ['.'] + d;
    }
    ReplaceFirstChar(x, d, '.', ",");
    var du := d + unit;
    assert FormatTenths(Some(t), unit) == x + "," + du by {
      assert x + "," + d + unit == x + "," + du;
    }
    CountAbsent(x, ',');
    CountAbsent(du, ',');
    CountCharAppend(x, ",", ',');
    CountCharAppend(x + ",", du, ',');
  }

  lemma FormatExamples()
    ensures FormatWeight(Some(69)) == "6,9Kg"
    ensures FormatWeight(Some(60)) == "6Kg"
    ensures FormatWeight(Some(0)) == "--"
    ensures FormatHeight(Some(17)) == "1,7m"
    ensures FormatHeight(None) == "--"
  {
    FormatWeightPositive(69);
    FormatWeightPositive(60);
    FormatHeightPositive(17);
  }

  // ---------------------------------------------------------------------
  // Stats
  // ---------------------------------------------------------------------

  datatype Stat = Stat(baseStat: int, name: string)

  const CanonicalStatNames: seq<string> :=
    ["hp", "attack", "defense", "special-attack", "special-defense", "speed"]

  /** `PokeDefStats`: the six canonical stats in order, each with base
      value 1. */
  function DefaultStats(): (stats: seq<Stat>)
    ensures |stats| == |CanonicalStatNames| == 6
    ensures forall i :: 0 <= i < |stats| ==> stats[i].baseStat == 1 && stats[i].name == CanonicalStatNames[i]
  {
    [ Stat(1, "hp"), Stat(1, "attack"), Stat(1, "defense"),
      Stat(1, "special-attack"), Stat(1, "special-defense"), Stat(1, "speed") ]
  }

  /** `pokemon?.stats ?? PokeDefStats`: the table replaces only a missing
      list; a present list, even an empty one, is kept. */
  function StatsOrDefault(stats: Option<seq<Stat>>): (shown: seq<Stat>)
    ensures stats.Some? ==> shown == stats.value
    ensures stats.None? ==> |shown| == 6
    ensures stats.None? ==> forall i :: 0 <= i < 6 ==> shown[i].baseStat == 1 && shown[i].name == CanonicalStatNames[i]
  {
    match stats
    case Some(s) => s
    case None => DefaultStats()
  }
}
