# pokeApp core, modelled in Dafny

pokeApp is a small React Native Pokédex. It lists Pokémon from the PokéAPI
21 at a time. The list can be searched by name or id and sorted by id or
name. Each detail page shows weight, height and base stats. This project
models the pure logic behind those screens and proves properties of it:

- **`Pokemon`** (`app/functions/pokemon.ts`): how an id is read out of a
  resource URL (`getPokemonId`), the artwork URL (`getPokeArtwork`), the
  weight and height captions (`formatWeight`, `formatHeight`), the default
  stat table (`PokeDefStats`), and the detail page's fallback to that table.
- **`PokemonStat`** (`components/pokemon/PokemonStat.tsx`): the stat label
  (`statShortName`), the zero-padded value, and the flex weights of the
  stat bar.
- **`PokemonCard`** (`components/pokemon/PokemonCard.tsx`): the `#` id
  caption of a list card, including the `#NaN` of an id that did not parse.
- **`FetchQuery`** (`hooks/useFetchQuery.ts`): how `[key]` placeholders in
  an API path are substituted into a URL, and the page parameters of the
  infinite list query.
- **`PokemonList`** (`app/index.tsx`): flattening loaded pages into
  `{ name, id }` summaries, the search filter, the sort, and the rule that
  asks for the next page.
- **`JsNumber`** and **`JsString`** carry the JavaScript built-ins this
  code depends on, with the semantics it relies on:
  - `Number.prototype.toString` and `parseInt(…, 10)`;
  - `split`, `replaceAll` and `replace` with a string pattern;
  - `includes`, `padStart` and `toUpperCase`/`toLowerCase`;
  - `<` on strings.
- **`Wrappers`** holds `Option`.

Modelling conventions:

- JavaScript's `NaN` (what `parseInt` returns on text that does not start
  with a number) is `None`. `undefined` and `null` are `None` too, where
  the code only tests for absence.
- A weight or height is an integer count of tenths (hectograms,
  decimetres), which is what the API delivers. `(v / 10).toString()` is
  modelled as the one-decimal text of that value. A value with at most 15
  significant digits survives the engine's double arithmetic and shortest
  printing unchanged, so the two agree below 10^15 tenths, far beyond any
  value the API delivers; larger values are left out.
- The list sort is modelled as insertion sort with the app's comparator.
  Two lemmas connect it to whatever sort an engine uses:
  - `SortAscending` shows the result is strictly ascending when the keys
    are pairwise distinct;
  - `SortedUnique` shows that only one list is ascending for those
    entries.

  Together they mean every correct sorting algorithm produces this list.
  The comparator never returns 0. On equal keys, and on `NaN` ids, it
  answers 1 in both directions (`CompareDefect`, `CompareTieExample`).
  The engine's order on such ties is therefore not determined, so the
  model promises only that no entry is lost or duplicated there.

Behaviour of the code worth knowing, each stated by a contract:

- The detail page falls back to the default stats with `??`. An empty
  stats list is therefore shown as it is; only a missing list is replaced
  (`StatsOrDefault`).
- `NoPlaceholderLeft` proves that substitution leaves no placeholder for
  a path built from bracket-free text and `[key]` placeholders, with keys
  and values that carry no brackets either. That condition is sufficient,
  not necessary (`/pokemon]` keeps no placeholder either), but outside it
  the property can fail: `NestedPlaceholderSurvives` shows the nested
  path `[[id]]` with `id` set to `"id"`, where `[id]` survives.
- `getPokemonId` needs a trailing slash. Without one it reads the
  `pokemon` segment and yields `NaN` (`PokemonIdNeedsTrailingSlash`).

## Model

| member | source | states |
|---|---|---|
| `Pokemon.PokemonIdReadsSegment` | app/functions/pokemon.ts:1-3 | the id is parsed from the segment between the last two slashes, whatever precedes them |
| `Pokemon.PokemonIdRoundTrip` | app/functions/pokemon.ts:1-3 | a resource URL `…/<n>/` yields the id `n` back, for every integer `n` |
| `Pokemon.PokemonIdNeedsTrailingSlash` | app/functions/pokemon.ts:1-3 | without the trailing slash the segment read is `pokemon` and the id is NaN |
| `Pokemon.PokemonId` | app/functions/pokemon.ts:1-3 | a parsed id needs a slash in the URL: without one, `at(-2)` is undefined and `parseInt("undefined")` is NaN |
| `JsNumber.ParseIntOfIntToString` | app/functions/pokemon.ts:2 | `parseInt(n.toString(), 10)` gives `n` back for every integer, negative ones included |
| `JsString.JoinSplit` | app/functions/pokemon.ts:2 | `split('/')` loses nothing: joining the parts with `/` restores the URL |
| `Pokemon.ArtworkUrl` | app/functions/pokemon.ts:5-7 | the artwork URL starts with the sprite base path and ends with `.png`, and what lies between is exactly the id's text; an id that did not parse (`NaN`, as the list card at components/pokemon/PokemonCard.tsx line 35 can pass) gives `NaN.png` |
| `Pokemon.ArtworkUrlInjective` | app/functions/pokemon.ts:5-7 | two ids share an artwork URL exactly when they print alike, so distinct numbers, `NaN` included, never do |
| `Pokemon.FormatWeight` | app/functions/pokemon.ts:9-14 | the caption is `--` exactly when the weight is absent or zero |
| `Pokemon.FormatHeight` | app/functions/pokemon.ts:16-21 | the caption is `--` exactly when the height is absent or zero |
| `Pokemon.FormatWeightPositive` | app/functions/pokemon.ts:9-14 | a positive weight in hectograms reads as kilograms, with a decimal comma only when the tenths digit is not zero, then `Kg` |
| `Pokemon.FormatHeightPositive` | app/functions/pokemon.ts:16-21 | a positive height in decimetres reads as metres, with a decimal comma only when the tenths digit is not zero, then `m` |
| `Pokemon.FormatTenthsSeparators` | app/functions/pokemon.ts:9-21 | for any value, negative included, a caption holds at most one comma and no dot |
| `Pokemon.FormatExamples` | app/functions/pokemon.ts:9-21 | 69 hg is `6,9Kg`, 60 hg is `6Kg`, 0 hg is `--`, 17 dm is `1,7m`, no height is `--` |
| `Pokemon.DefaultStats` | app/functions/pokemon.ts:23-60 | six stats, hp to speed in the canonical order, each with base value 1 |
| `Pokemon.StatsOrDefault` | app/functions/pokemon.ts:23-60 | the fallback `stats ?? PokeDefStats` of the detail page (line 85 of `app/pokemon/[id].tsx`): a present stats list, even an empty one, is shown as is; only a missing one is replaced by the six defaults, with base value 1 and the canonical names hp to speed in order |
| `PokemonStat.StatShortName` | components/pokemon/PokemonStat.tsx:18-26 | a label never holds a lower-case letter |
| `PokemonStat.StatShortNameNoHyphen` | components/pokemon/PokemonStat.tsx:18-26 | a label never holds a hyphen |
| `PokemonStat.StatShortNameNotLonger` | components/pokemon/PokemonStat.tsx:18-26 | a label is never longer than the stat name |
| `PokemonStat.StatShortNameOtherNames` | components/pokemon/PokemonStat.tsx:18-26 | a name containing none of the rewritten words is only upper cased |
| `PokemonStat.DefaultStatLabels` | components/pokemon/PokemonStat.tsx:18-26 | the six default stats are labelled HP, ATK, DEF, SATK, SDEF, SPD in that order |
| `PokemonStat.LabelOfHp` | components/pokemon/PokemonStat.tsx:18-26 | `hp` is labelled `HP` |
| `PokemonStat.LabelOfAttack` | components/pokemon/PokemonStat.tsx:18-26 | `attack` is labelled `ATK` |
| `PokemonStat.LabelOfDefense` | components/pokemon/PokemonStat.tsx:18-26 | `defense` is labelled `DEF` |
| `PokemonStat.LabelOfSpecialAttack` | components/pokemon/PokemonStat.tsx:18-26 | `special-attack` is labelled `SATK`: the hyphen goes after `special` becomes `S` |
| `PokemonStat.LabelOfSpecialDefense` | components/pokemon/PokemonStat.tsx:18-26 | `special-defense` is labelled `SDEF` |
| `PokemonStat.LabelOfSpeed` | components/pokemon/PokemonStat.tsx:18-26 | `speed` is labelled `SPD` |
| `PokemonStat.PadThree` | components/pokemon/PokemonStat.tsx:54 | the value cell is the value's own text widened with leading `0`s to three characters, and never cut shorter |
| `PokemonStat.PadThreeRoundTrip` | components/pokemon/PokemonStat.tsx:54 | the zero-padded text of a non-negative value parses back to that value |
| `PokemonStat.PadThreeLength` | components/pokemon/PokemonStat.tsx:54 | the padded text is exactly three characters precisely for values from -99 to 999 |
| `PokemonCard.CardIdText` | components/pokemon/PokemonCard.tsx:29-31 | the caption is `#`, then only `0`s, then the id's own text; a non-negative id parses back from the text after `#`; an id from 0 to 999 gives exactly four characters; an id that did not parse shows as `#NaN` |
| `PokemonStat.StatBar` | components/pokemon/PokemonStat.tsx:31-40 | the bar's two flex weights add up to 250, and the background weight is non-negative exactly when the shown value is at most 250 |
| `FetchQuery.LocalUrl` | hooks/useFetchQuery.ts:48-53 | the URL starts with the API endpoint, and without params, or with no entries, it is the endpoint followed by the unchanged path |
| `FetchQuery.Substitute` | hooks/useFetchQuery.ts:50-52 | every placeholder starts with `[`, so a path without `[` comes through the fold unchanged, whatever the entries |
| `FetchQuery.SubstituteAbsent` | hooks/useFetchQuery.ts:48-53 | params whose placeholders do not occur in the path leave it unchanged |
| `FetchQuery.LocalUrlExample` | hooks/useFetchQuery.ts:48-53 | `/pokemon/[id]` with id 25 becomes `https://pokeapi.co/api/v2/pokemon/25` |
| `FetchQuery.ReplaceAllFillsHoles` | hooks/useFetchQuery.ts:51 | on a well-formed path, `replaceAll('[key]', value)` fills exactly the holes named `key` and copies everything else |
| `FetchQuery.SubstituteFillsHoles` | hooks/useFetchQuery.ts:48-53 | the fold over the entries fills the path's holes entry by entry, in enumeration order |
| `FetchQuery.FillAllShape` | hooks/useFetchQuery.ts:48-53 | after all entries, the path is still well formed and holds no hole named by any entry |
| `FetchQuery.NoPlaceholderLeft` | hooks/useFetchQuery.ts:48-53 | with bracket-free path text, keys and values, no `[key]` of any entry is left in the URL |
| `FetchQuery.NestedPlaceholderSurvives` | hooks/useFetchQuery.ts:48-53 | without that condition a placeholder can survive: `[[id]]` with id `"id"` becomes `[id]` |
| `FetchQuery.InitialPageParam` | hooks/useFetchQuery.ts:65 | the first list page is fetched at the URL a plain fetch of the same path would use |
| `FetchQuery.NextPageParam` | hooks/useFetchQuery.ts:73-78 | there is a next page exactly when the last page carries a `next` URL, and it is that URL |
| `PokemonList.SummaryOfResource` | app/index.tsx:30-31 | a result whose URL ends in `/<n>/` is listed with its own name and the id `n` |
| `PokemonList.Flatten` | app/index.tsx:29-32 | there is one summary for every result of every loaded page |
| `PokemonList.FlattenAppend` | app/index.tsx:29-32 | flattening distributes over concatenation of the page list |
| `PokemonList.FlattenNewPage` | app/index.tsx:29-32 | a newly loaded page appends its summaries after all earlier ones, in order |
| `PokemonList.Summaries` | app/index.tsx:29-32 | with no data loaded the list is empty |
| `PokemonList.Matches` | app/index.tsx:36-38 | a query without ASCII upper-case letters that occurs in the name finds the entry, whatever the id |
| `PokemonList.Visible` | app/index.tsx:33-40 | an empty query shows every loaded entry; any other query shows exactly the matching ones; nothing appears more often than it is loaded |
| `PokemonList.Filter` | app/index.tsx:33-40 | an entry is kept exactly when it matches the query, each as often as it occurs |
| `PokemonList.FilterIsSubsequence` | app/index.tsx:33-40 | the filter drops entries but never reorders them |
| `PokemonList.IdClauseRejectsLeadingZero` | app/index.tsx:38 | the id clause is an exact text comparison: a query of two or more characters starting with `0` never equals an id's text |
| `PokemonList.SearchFindsUnparsedIds` | app/index.tsx:38 | an entry whose id did not parse prints as `NaN`, so the query `NaN` finds it |
| `PokemonList.SearchFindsId` | app/index.tsx:33-40 | typing `25` finds pikachu through its id |
| `PokemonList.SearchMissesPaddedId` | app/index.tsx:33-40 | typing `025`, as the card shows it, does not find pikachu |
| `PokemonList.SearchMissesIdPrefix` | app/index.tsx:33-40 | typing `2` does not find id 25: the id clause is an exact comparison |
| `PokemonList.SearchIgnoresCase` | app/index.tsx:33-40 | typing `PIKA` finds `pikachu`, because the query is lower-cased |
| `PokemonList.Compare` | app/index.tsx:41 | the comparator answers only -1 or 1, -1 exactly when the first key is smaller; when sorting by id, every comparison that involves a NaN id answers 1 |
| `PokemonList.KeyLessTransitive` | app/index.tsx:41 | the `<` of the comparator is transitive on both keys |
| `PokemonList.CompareDefect` | app/index.tsx:41 | the comparator never answers 0, and it is antisymmetric exactly on pairs whose keys are ordered |
| `PokemonList.CompareTieExample` | app/index.tsx:41 | two entries with the same name each compare as greater than the other |
| `PokemonList.SortBy` | app/index.tsx:41 | sorting keeps exactly the entries it is given |
| `PokemonList.SortAscending` | app/index.tsx:41 | with pairwise distinct keys the sorted list is strictly ascending |
| `PokemonList.SortedUnique` | app/index.tsx:41 | two ascending arrangements of the same entries are equal |
| `PokemonList.FilterKeepsDistinct` | app/index.tsx:33-40 | filtering keeps keys pairwise distinct |
| `PokemonList.Displayed` | app/index.tsx:33-41 | the displayed list never shows an entry that is not loaded, nor more often than it is loaded |
| `PokemonList.DisplayedEmptyQuery` | app/index.tsx:33-41 | with an empty query the displayed list is a rearrangement of all loaded entries |
| `PokemonList.DisplayedSearch` | app/index.tsx:33-41 | with a query, an entry is displayed exactly when it is loaded and matches, as often as it is loaded |
| `PokemonList.DisplayedOrder` | app/index.tsx:33-41 | with distinct keys the displayed list is ascending and is the only ascending arrangement of the visible entries |
| `PokemonList.EndReached` | app/index.tsx:67 | the end of the list calls `fetchNextPage()` exactly when the query is empty, that is only while every loaded entry is shown |
| `PokemonList.EndReachedRequest` | app/index.tsx:67 | a page is requested only after `EndReached` calls `fetchNextPage()`, exactly when the last loaded page has a `next` URL, and the request is for that URL |

## Left out

- Networking, react-query caching, retries and loading state. A fetch
  result enters the model as a parameter (`ListPage`, `Option` values).
- EndReachedRequest: what `fetchNextPage()` requests is react-query's
  behaviour, and react-query is not part of this model. The model assumes
  that it requests the last page's next page parameter, that it requests
  nothing when that parameter is null, and that it requests nothing before
  the first page has loaded. react-query may instead load the first page
  in that last case. The app's own rule is `EndReached`.
- Rendering, navigation, the theme, the search bar and the sort button.
  Their state (the query and the sort key) enters as parameters.
- The detail screen's pager (previous/next id) and its type list. Only the
  stats fallback of `app/pokemon/[id].tsx` line 85 is modelled.
- The spring animation of the stat bar: `StatBar` takes the currently shown
  value as a parameter, and as an integer. While the spring moves, the
  value passes through fractions; the two weights still add up to 250
  then, by the same subtraction.
- Floating point: weights and heights are integer tenths, as the API
  delivers them. Non-integer inputs and the `NaN` test of `!weight` are not
  modelled.
- `Number.prototype.toString` for integers of magnitude 1e21 or more, which
  switches to exponent notation; `IntToString` always prints every digit.
- PokemonId: ids are exact unbounded integers. In JavaScript, `parseInt`
  yields a double, which is exact only up to 2^53. For a larger id such as
  9007199254740993 the app gets 9007199254740992, and its `toString` (used
  by the search's id clause) differs from the model's. `ParseInt` and
  `IntToString` share this limit, and the weight and height captions are
  exact only below 10^15 tenths. No PokéAPI id or measure comes near
  either bound.
- `parseInt` is modelled for radix 10 only, the one the code uses. Its
  `+`/`-` sign, leading white space and stopping at the first non-digit are
  modelled.
- `toUpperCase`/`toLowerCase` are modelled on ASCII letters only. Other
  letters pass through unchanged, so `SearchIgnoresCase` and the labels
  hold as stated only for ASCII names.
- Strings are sequences of Unicode scalar values (Dafny's `char`), not of
  UTF-16 code units as in JavaScript. A character above U+FFFF therefore
  has length 1 here and 2 in JavaScript, which changes `padStart` widths
  and `includes` positions for such text.
- StrLess: orders strings by code point, not by UTF-16 code unit as
  JavaScript's `<` does. The two orders differ only when a character above
  U+FFFF is compared with one from U+E000 to U+FFFF.
- `replaceAll`/`replace` replacement patterns (`$&`, `$1`, …): the
  replacement is inserted literally. No key or value the app passes holds
  `$`.
- The enumeration order of `Object.entries(params)`: the caller supplies
  the entries as a sequence, in the order the engine would list them.
- `SortBy`: on equal or `NaN` keys the engine's order is implementation
  defined, so this contract promises only the same entries, not an order.
