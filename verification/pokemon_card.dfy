/** The list card of components/pokemon/PokemonCard.tsx: its `#` caption.
    The id it shows comes from `getPokemonId`, so it may be `NaN`
    (`None`). */
module PokemonCard {
  import opened Wrappers
  import opened JsNumber
  import opened JsString
  import opened PokemonStat

  /** `#` followed by `id.toString().padStart(3, '0')`. A non-negative id
      can be read back from the text after `#`, an id below 1000 always
      gives four characters, and an unparsed id shows as `#NaN`. */
  function CardIdText(id: Option<int>): (caption: string)
    ensures |caption| >= 4 && caption[0] == '#'
    ensures EndsWith(caption, NumberText(id))
    ensures forall i :: 1 <= i < |caption| - |NumberText(id)| ==> caption[i] == '0'
    ensures id.None? ==> caption == "#NaN"
    ensures id.Some? && id.value >= 0 ==> ParseInt(caption[1..]) == id
    ensures id.Some? && 0 <= id.value < 1000 ==> |caption| == 4
  {
    var padded := PadStart(NumberText(id), 3, '0');
    var caption := "#" + padded;
    assert caption[1..] == padded;
    match id
    case None =>
      caption
    case Some(n) =>
      assert padded == PadThree(n);
      PadThreeLength(n);
      if n >= 0 then
        PadThreeRoundTrip(n);
        caption
      else
        caption
  }
}
