/** The colour-combination table and `getCombinationColors`. */
module Colors {
  import opened Basics

  /** `COLOR_COMBINATIONS` in declaration order: a base colour and the
      colours that go with it. */
  const Combinations: seq<(string, seq<string>)> := [
    ("Blanco", ["Negro", "Rojo", "Azul", "Verde", "Gris", "Marrón", "Rosado", "Morado"]),
    ("Negro", ["Blanco", "Rojo", "Amarillo", "Gris", "Rosado", "Azul", "Verde"]),
    ("Gris", ["Rojo", "Azul", "Rosado", "Verde", "Negro", "Blanco"]),
    ("Rojo", ["Negro", "Blanco", "Gris", "Amarillo"]),
    ("Naranja", ["Negro", "Blanco", "Gris", "Azul"]),
    ("Amarillo", ["Negro", "Blanco", "Gris", "Azul", "Morado"]),
    ("Verde", ["Negro", "Blanco", "Gris", "Amarillo", "Marrón"]),
    ("Azul", ["Negro", "Blanco", "Gris", "Naranja", "Amarillo"]),
    ("Morado", ["Negro", "Blanco", "Gris", "Amarillo", "Rosado"]),
    ("Rosado", ["Negro", "Blanco", "Gris", "Morado", "Azul"]),
    ("Marrón", ["Blanco", "Beige", "Verde", "Amarillo"]),
    ("Beige", ["Negro", "Blanco", "Marrón", "Azul", "Verde"])
  ]

  /** `Object.keys(COLOR_COMBINATIONS)`. */
  const BaseColors: seq<string> := [
    "Blanco", "Negro", "Gris", "Rojo", "Naranja", "Amarillo",
    "Verde", "Azul", "Morado", "Rosado", "Marrón", "Beige"
  ]

  lemma BaseColorsAreKeys()
    ensures |BaseColors| == |Combinations|
    ensures forall j :: 0 <= j < |Combinations| ==> BaseColors[j] == Combinations[j].0
  {
  }

  /** No base colour is listed twice. */
  lemma KeysDistinct()
    ensures forall i, j :: 0 <= i < j < |Combinations| ==> Combinations[i].0 != Combinations[j].0
  {
    var k := BaseColors;
    BaseColorsAreKeys();
    assert k[0][0] == 'B' && k[1][0] == 'N' && k[2][0] == 'G' && k[3][0] == 'R' && k[4][0] == 'N' && k[5][0] == 'A';
    assert k[6][0] == 'V' && k[7][0] == 'A' && k[8][0] == 'M' && k[9][0] == 'R' && k[10][0] == 'M' && k[11][0] == 'B';
    assert k[0][1] == 'l' && k[11][1] == 'e' && k[1][1] == 'e' && k[4][1] == 'a' && k[5][1] == 'm' && k[7][1] == 'z';
    assert k[8][1] == 'o' && k[10][1] == 'a' && k[3][2] == 'j' && k[9][2] == 's';
  }

  /** The row of base colour `base` at or after position `k`. */
  function FindRow(base: string, k: nat): (r: Option<seq<string>>)
    ensures r.Some? <==> exists j :: k <= j < |Combinations| && Combinations[j].0 == base
    ensures r.Some? ==> exists j :: k <= j < |Combinations| && Combinations[j] == (base, r.value)
    decreases |Combinations| - k
  {
    if k >= |Combinations| then None
    else if Combinations[k].0 == base then Some(Combinations[k].1)
    else FindRow(base, k + 1)
  }

  /** `getCombinationColors`: the colours listed for a known base colour
      (matched exactly, case included), every base colour otherwise. */
  function GetCombinationColors(base: string): (r: seq<string>)
    ensures |r| > 0
    ensures forall j :: 0 <= j < |Combinations| && Combinations[j].0 == base ==> r == Combinations[j].1
    ensures (forall j :: 0 <= j < |Combinations| ==> Combinations[j].0 != base) ==> r == BaseColors
  {
    KeysDistinct();
    match FindRow(base, 0)
    case Some(row) => row
    case None => BaseColors
  }

  /** The table is closed: every colour it suggests is itself a base colour,
      so the suggestion for a suggestion is again a row of the table. */
  lemma SuggestionsAreBaseColors(base: string, c: string)
    requires c in GetCombinationColors(base)
    ensures c in BaseColors
  {
  }
}
