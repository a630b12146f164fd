/** The item selection of `generateRandomOutfit`: one top, one bottom and
    one pair of shoes, preferring items whose primary colour mentions the
    requested colour. The outfit row it then writes is `Outfit.create`
    without a stack, modelled in the store module. */
module RandomOutfit {
  import opened Basics
  import opened Js
  import opened Garments
  import opened Composer

  /** `CATEGORIAS`: the display name of each category id. */
  function CategoryName(c: int): (r: string)
    requires 1 <= c <= 5
  {
    ["Superior", "Inferior", "Zapatos", "Exterior", "Monopieza"][c - 1]
  }

  /** `CATEGORIAS_BASICAS`: top, bottom, shoes, in that order. */
  const Basicas: seq<int> := [Superior, Inferior, Zapatos]

  /** The basic categories with no item, in the order of `Basicas`. */
  function MissingIds(prendas: seq<Item>): (r: seq<int>)
    ensures forall c :: c in r <==> c in Basicas && CountCat(prendas, c) == 0
  {
    Filter(Basicas, (c: int) => CountCat(prendas, c) == 0)
  }

  /** `categoriasFaltantes`: the names of the missing basic categories. */
  function MissingCategories(prendas: seq<Item>): (r: seq<string>)
    ensures |r| == |MissingIds(prendas)|
    ensures forall k :: 0 <= k < |r| ==> r[k] == CategoryName(MissingIds(prendas)[k])
  {
    var ids := MissingIds(prendas);
    seq(|ids|, k requires 0 <= k < |ids| => CategoryName(ids[k]))
  }

  /** The item's primary colour mentions `filter`, ignoring case. */
  predicate ColorMatches(x: Item, filter: string) {
    x.color.Some? && Contains(Lower(x.color.value), filter)
  }

  /** The candidates of category `c`: those whose colour matches when a
      (non-empty) colour was requested and any match exists, otherwise all. */
  function Candidates(prendas: seq<Item>, c: int, colorPrincipal: Option<string>): (r: seq<Item>)
    ensures forall x :: x in r ==> x in prendas && x.categoria == c
    ensures |r| > 0 <==> CountCat(prendas, c) > 0
    ensures colorPrincipal.Some? && colorPrincipal.value != ""
            && (exists x :: x in prendas && x.categoria == c && ColorMatches(x, Lower(colorPrincipal.value)))
            ==> forall x :: x in r ==> ColorMatches(x, Lower(colorPrincipal.value))
  {
    var disponibles := OfCategory(prendas, c);
    assert forall i :: 0 <= i < |prendas| && prendas[i].categoria == c ==> prendas[i] in disponibles;
    match colorPrincipal
    case Some(color) =>
      if Lower(color) != "" then
        var conColor := Filter(disponibles, (x: Item) => ColorMatches(x, Lower(color)));
        if |conColor| > 0 then conColor else disponibles
      else disponibles
    case None => disponibles
  }

  /** What `generateRandomOutfit` does before writing: the error for missing
      categories, or the three chosen items and `incluyeColorSolicitado`. */
  datatype Selection =
    | Missing(missingCategories: seq<string>, solution: string)
    | Selected(prendas: seq<Item>, incluyeColorSolicitado: bool)

  const NotEnoughItems := "No hay suficientes prendas para generar el outfit"

  /** Some basic category is missing exactly when the list of missing
      names is not empty. */
  lemma MissingIff(prendas: seq<Item>)
    ensures |MissingCategories(prendas)| > 0 <==> exists c :: c in Basicas && CountCat(prendas, c) == 0
  {
    var ids := MissingIds(prendas);
    if |ids| > 0 {
      assert ids[0] in ids;
    }
  }

  /** One draw among the candidates of a category that has items. */
  function Draw1(prendas: seq<Item>, c: int, colorPrincipal: Option<string>, r: nat): (x: Item)
    requires CountCat(prendas, c) > 0
    ensures x in Candidates(prendas, c, colorPrincipal)
  {
    Pick(Candidates(prendas, c, colorPrincipal), r)
  }

  /** One draw among the candidates of each basic category: the top, the
      bottom and the shoes. */
  function Chosen(prendas: seq<Item>, colorPrincipal: Option<string>, r1: nat, r2: nat, r3: nat)
    : (r: (Item, Item, Item))
    requires CountCat(prendas, Superior) > 0 && CountCat(prendas, Inferior) > 0 && CountCat(prendas, Zapatos) > 0
    ensures r.0 in Candidates(prendas, Superior, colorPrincipal)
    ensures r.1 in Candidates(prendas, Inferior, colorPrincipal)
    ensures r.2 in Candidates(prendas, Zapatos, colorPrincipal)
  {
    (Draw1(prendas, Superior, colorPrincipal, r1), Draw1(prendas, Inferior, colorPrincipal, r2),
     Draw1(prendas, Zapatos, colorPrincipal, r3))
  }

  /** The selection, with one index draw per basic category. */
  function SelectItems(prendas: seq<Item>, colorPrincipal: Option<string>, r1: nat, r2: nat, r3: nat): (sel: Selection)
    ensures sel.Missing? <==> exists c :: c in Basicas && CountCat(prendas, c) == 0
    ensures sel.Selected? ==> |sel.prendas| == 3
    ensures sel.Selected? ==> forall k :: 0 <= k < 3 ==> sel.prendas[k] in prendas && sel.prendas[k].categoria == Basicas[k]
  {
    var faltantes := MissingCategories(prendas);
    MissingIff(prendas);
    if |faltantes| > 0 then
      Missing(faltantes, "Agrega al menos 1 prenda en: " + JoinComma(faltantes))
    else
      assert Superior in Basicas && Inferior in Basicas && Zapatos in Basicas;
      var c := Chosen(prendas, colorPrincipal, r1, r2, r3);
      var chosen := [c.0, c.1, c.2];
      var incluye :=
        if colorPrincipal.Some? && colorPrincipal.value != "" then
          exists k :: 0 <= k < 3 && ColorMatches(chosen[k], Lower(colorPrincipal.value))
        else true;
      Selected(chosen, incluye)
  }

  /** `incluyeColorSolicitado` is true exactly when no colour was requested
      or some top, bottom or pair of shoes in the inventory has a matching
      colour: the preference never misses a match that exists. */
  lemma IncludesColorIff(prendas: seq<Item>, colorPrincipal: Option<string>, r1: nat, r2: nat, r3: nat)
    requires SelectItems(prendas, colorPrincipal, r1, r2, r3).Selected?
    ensures SelectItems(prendas, colorPrincipal, r1, r2, r3).incluyeColorSolicitado
            <==> colorPrincipal.None? || colorPrincipal.value == ""
                 || exists x :: x in prendas && x.categoria in Basicas && ColorMatches(x, Lower(colorPrincipal.value))
  {
    var sel := SelectItems(prendas, colorPrincipal, r1, r2, r3);
    if colorPrincipal.Some? && colorPrincipal.value != "" {
      var f := Lower(colorPrincipal.value);
      assert |f| == |colorPrincipal.value|;
      if exists x :: x in prendas && x.categoria in Basicas && ColorMatches(x, f) {
        var x :| x in prendas && x.categoria in Basicas && ColorMatches(x, f);
        var k :| 0 <= k < 3 && Basicas[k] == x.categoria;
        var cands := Candidates(prendas, Basicas[k], colorPrincipal);
        assert sel.prendas[k] in cands by {
          assert k == 0 || k == 1 || k == 2;
        }
        assert ColorMatches(sel.prendas[k], f);
      }
      if sel.incluyeColorSolicitado {
        var k :| 0 <= k < 3 && ColorMatches(sel.prendas[k], f);
        assert sel.prendas[k] in prendas && sel.prendas[k].categoria == Basicas[k];
      }
    }
  }

  /** The missing-category error lists exactly the basic categories with no
      item, by name, in the order top, bottom, shoes. */
  lemma MissingNamesExact(prendas: seq<Item>)
    ensures forall c :: 1 <= c <= 3 ==> (CategoryName(c) in MissingCategories(prendas) <==> CountCat(prendas, c) == 0)
  {
    forall c | 1 <= c <= 3 ensures CategoryName(c) in MissingCategories(prendas) <==> CountCat(prendas, c) == 0 {
      MissingName(prendas, c);
    }
  }

  lemma MissingName(prendas: seq<Item>, c: int)
    requires 1 <= c <= 3
    ensures CategoryName(c) in MissingCategories(prendas) <==> CountCat(prendas, c) == 0
  {
    var ids := MissingIds(prendas);
    var names := MissingCategories(prendas);
    if CountCat(prendas, c) == 0 {
      assert c in Basicas;
      assert c in ids;
      var k :| 0 <= k < |ids| && ids[k] == c;
      assert names[k] == CategoryName(c);
    }
    if CategoryName(c) in names {
      var k :| 0 <= k < |names| && names[k] == CategoryName(c);
      assert ids[k] in ids;
      CategoryNamesDiffer(ids[k], c);
    }
  }

  /** The basic categories have different names. */
  lemma CategoryNamesDiffer(a: int, b: int)
    requires a in Basicas && 1 <= b <= 3
    requires CategoryName(a) == CategoryName(b)
    ensures a == b
  {
    assert CategoryName(1)[0] == 'S' && CategoryName(2)[0] == 'I' && CategoryName(3)[0] == 'Z';
  }

}
