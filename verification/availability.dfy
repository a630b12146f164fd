/** The availability analysis of the outfit service: grouping the inventory
    by style and category, deciding which styles can form a complete outfit,
    and the two counting formulas. */
module Availability {
  import opened Basics
  import opened Garments

  /** The five category lists of one style. */
  datatype Buckets = Buckets(superior: seq<Item>, inferior: seq<Item>, zapatos: seq<Item>,
                             exterior: seq<Item>, monopieza: seq<Item>)
  {
    /** The list for category id `c`; ids outside 1..5 have none. */
    function Of(c: int): seq<Item> {
      if c == Superior then superior
      else if c == Inferior then inferior
      else if c == Zapatos then zapatos
      else if c == Exterior then exterior
      else if c == Monopieza then monopieza
      else []
    }
  }

  const EmptyBuckets := Buckets([], [], [], [], [])

  /** The `grouped` object: its keys in insertion order and the buckets of
      each key. */
  datatype Grouped = Grouped(order: seq<string>, buckets: map<string, Buckets>)

  /** The `switch` on `id_categoria`: append the item to its category's list;
      any other id leaves the buckets unchanged. */
  function Push(b: Buckets, it: Item): Buckets {
    if it.categoria == Superior then b.(superior := b.superior + [it])
    else if it.categoria == Inferior then b.(inferior := b.inferior + [it])
    else if it.categoria == Zapatos then b.(zapatos := b.zapatos + [it])
    else if it.categoria == Exterior then b.(exterior := b.exterior + [it])
    else if it.categoria == Monopieza then b.(monopieza := b.monopieza + [it])
    else b
  }

  lemma PushOf(b: Buckets, it: Item, c: int)
    requires 1 <= c <= 5
    ensures Push(b, it).Of(c) == b.Of(c) + (if it.categoria == c then [it] else [])
  {
  }

  /** One step of the `forEach`: create the style's entry on first sight,
      then push the item. */
  function Place(g: Grouped, it: Item): Grouped {
    var g1 := if it.estilo in g.buckets then g
              else Grouped(g.order + [it.estilo], g.buckets[it.estilo := EmptyBuckets]);
    g1.(buckets := g1.buckets[it.estilo := Push(g1.buckets[it.estilo], it)])
  }

  /** A step keeps the keys distinct and in step with the entries, and adds
      exactly the item's style. */
  lemma PlaceKeys(g: Grouped, it: Item)
    requires Distinct(g.order)
    requires forall s :: s in g.buckets <==> s in g.order
    ensures Distinct(Place(g, it).order)
    ensures forall s :: s in Place(g, it).buckets <==> s in Place(g, it).order
    ensures forall s :: s in Place(g, it).buckets <==> s in g.buckets || s == it.estilo
  {
  }

  /** The grouping has an entry for exactly the styles of the inventory. */
  lemma {:induction false} GroupingStyles(items: seq<Item>, s: string)
    ensures s in GroupByCategoryAndStyle(items).buckets <==> exists i :: 0 <= i < |items| && items[i].estilo == s
    decreases |items|
  {
    if |items| > 0 {
      var rest := items[..|items| - 1];
      GroupingStyles(rest, s);
      PlaceKeys(GroupByCategoryAndStyle(rest), items[|items| - 1]);
      if exists i :: 0 <= i < |rest| && rest[i].estilo == s {
        var i :| 0 <= i < |rest| && rest[i].estilo == s;
        assert items[i] == rest[i];
      }
      if exists i :: 0 <= i < |items| && items[i].estilo == s {
        var i :| 0 <= i < |items| && items[i].estilo == s;
        if i < |rest| { assert rest[i] == items[i]; }
      }
    }
  }

  /** `groupByCategoryAndStyle`. */
  function GroupByCategoryAndStyle(items: seq<Item>): (g: Grouped)
    ensures Distinct(g.order)
    ensures forall s :: s in g.buckets <==> s in g.order
    decreases |items|
  {
    if |items| == 0 then Grouped([], map[])
    else
      var rest := items[..|items| - 1];
      PlaceKeys(GroupByCategoryAndStyle(rest), items[|items| - 1]);
      Place(GroupByCategoryAndStyle(rest), items[|items| - 1])
  }

  /** The bucket of style `s` and category `c` holds exactly the items of
      that style and category, in inventory order. */
  lemma {:induction false} GroupingBucket(items: seq<Item>, s: string, c: int)
    requires 1 <= c <= 5
    requires s in GroupByCategoryAndStyle(items).buckets
    ensures GroupByCategoryAndStyle(items).buckets[s].Of(c) == Select(items, s, c)
    decreases |items|
  {
    var rest := items[..|items| - 1];
    var it := items[|items| - 1];
    var g0 := GroupByCategoryAndStyle(rest);
    if s in g0.buckets {
      GroupingBucket(rest, s, c);
      if it.estilo == s {
        PushOf(g0.buckets[s], it, c);
      }
    } else {
      GroupingStyles(rest, s);
      assert !Has(rest, s, c);
      SelectNonEmpty(rest, s, c);
      PushOf(EmptyBuckets, it, c);
    }
  }

  /** Every item whose category is 1..5 sits in the bucket of its style and
      category and in no other bucket; an item with any other category is in
      no bucket, yet its style still has an entry. */
  lemma GroupingPlacesItem(items: seq<Item>, k: nat, s: string, c: int)
    requires k < |items|
    requires 1 <= c <= 5
    ensures items[k].estilo in GroupByCategoryAndStyle(items).buckets
    ensures s in GroupByCategoryAndStyle(items).buckets ==>
      (items[k] in GroupByCategoryAndStyle(items).buckets[s].Of(c) <==> s == items[k].estilo && c == items[k].categoria)
  {
    GroupingStyles(items, items[k].estilo);
    if s in GroupByCategoryAndStyle(items).buckets {
      GroupingBucket(items, s, c);
    }
  }

  // ---------------------------------------------------------------- checkAvailability

  /** The result of `checkAvailability`. */
  datatype Disponibilidad = Disponibilidad(
    tieneMonopieza: bool, tieneSuperior: bool, tieneInferior: bool, tieneZapatos: bool,
    tieneExterior: bool, estilosCompatibles: seq<string>,
    tieneSuperInferior: bool, puedeGenerarOutfits: bool)

  /** The per-style test inside `checkAvailability`. */
  predicate BucketsCompatible(b: Buckets) {
    |b.zapatos| > 0 && ((|b.superior| > 0 && |b.inferior| > 0) || |b.monopieza| > 0)
  }

  /** A style can dress someone: it has a shoe and either a top and a bottom
      or a one-piece. Stated on the items themselves. */
  predicate StyleCompatible(items: seq<Item>, s: string) {
    Has(items, s, Zapatos) && ((Has(items, s, Superior) && Has(items, s, Inferior)) || Has(items, s, Monopieza))
  }

  /** Some style that can dress someone has an item of category `c`. */
  predicate CompatibleHas(items: seq<Item>, c: int) {
    exists i :: 0 <= i < |items| && items[i].categoria == c && StyleCompatible(items, items[i].estilo)
  }

  /** Some compatible style among `keys` has a non-empty bucket `c`. */
  predicate AnyCompatible(g: Grouped, keys: seq<string>, c: int)
    requires forall s :: s in keys ==> s in g.buckets
  {
    exists j :: 0 <= j < |keys| && BucketsCompatible(g.buckets[keys[j]]) && |g.buckets[keys[j]].Of(c)| > 0
  }

  lemma AnyCompatibleStep(g: Grouped, keys: seq<string>, c: int)
    requires |keys| > 0
    requires forall s :: s in keys ==> s in g.buckets
    ensures AnyCompatible(g, keys, c) <==>
      AnyCompatible(g, keys[..|keys| - 1], c)
      || (BucketsCompatible(g.buckets[keys[|keys| - 1]]) && |g.buckets[keys[|keys| - 1]].Of(c)| > 0)
  {
    var p := keys[..|keys| - 1];
    if AnyCompatible(g, keys, c) {
      var j :| 0 <= j < |keys| && BucketsCompatible(g.buckets[keys[j]]) && |g.buckets[keys[j]].Of(c)| > 0;
      if j < |p| {
        assert p[j] == keys[j];
      }
    }
    if AnyCompatible(g, p, c) {
      var j :| 0 <= j < |p| && BucketsCompatible(g.buckets[p[j]]) && |g.buckets[p[j]].Of(c)| > 0;
      assert p[j] == keys[j];
    }
  }

  /** The flag of category `c` in an availability result. */
  function Flag(d: Disponibilidad, c: int): bool {
    if c == Superior then d.tieneSuperior
    else if c == Inferior then d.tieneInferior
    else if c == Exterior then d.tieneExterior
    else if c == Monopieza then d.tieneMonopieza
    else d.tieneZapatos
  }

  /** One entry of the `forEach`: a compatible style is recorded and lifts
      the flags of its non-empty lists; any other style changes nothing. */
  function ScanEntry(prev: Disponibilidad, s: string, b: Buckets): Disponibilidad {
    if BucketsCompatible(b) then
      prev.(estilosCompatibles := prev.estilosCompatibles + [s],
            tieneMonopieza := prev.tieneMonopieza || |b.monopieza| > 0,
            tieneSuperior := prev.tieneSuperior || |b.superior| > 0,
            tieneInferior := prev.tieneInferior || |b.inferior| > 0,
            tieneZapatos := true,
            tieneExterior := prev.tieneExterior || |b.exterior| > 0)
    else prev
  }

  /** The `forEach` over the entries of `grouped`, visiting `keys` in order. */
  function Scan(g: Grouped, keys: seq<string>): (d: Disponibilidad)
    requires forall s :: s in keys ==> s in g.buckets
    requires Distinct(keys)
    ensures Distinct(d.estilosCompatibles)
    ensures forall s :: s in d.estilosCompatibles <==> s in keys && BucketsCompatible(g.buckets[s])
    ensures d.tieneZapatos <==> |d.estilosCompatibles| > 0
    decreases |keys|
  {
    if |keys| == 0 then Disponibilidad(false, false, false, false, false, [], false, false)
    else
      var prev := Scan(g, keys[..|keys| - 1]);
      var s := keys[|keys| - 1];
      assert forall t :: t in keys <==> t in keys[..|keys| - 1] || t == s;
      assert s !in keys[..|keys| - 1];
      ScanEntry(prev, s, g.buckets[s])
  }

  /** The flag of each of the four categories other than shoes records
      whether some compatible style among the visited keys has an item of
      that category. */
  lemma {:induction false} ScanFlag(g: Grouped, keys: seq<string>, c: int)
    requires forall s :: s in keys ==> s in g.buckets
    requires Distinct(keys)
    requires c in {Superior, Inferior, Exterior, Monopieza}
    ensures Flag(Scan(g, keys), c) == AnyCompatible(g, keys, c)
    decreases |keys|
  {
    if |keys| > 0 {
      var p := keys[..|keys| - 1];
      assert forall t :: t in p ==> t in keys;
      assert Distinct(p) by {
        forall i, j | 0 <= i < j < |p| ensures p[i] != p[j] { assert p[i] == keys[i] && p[j] == keys[j]; }
      }
      ScanFlag(g, p, c);
      AnyCompatibleStep(g, keys, c);
    }
  }

  lemma BucketsCompatibleIff(items: seq<Item>, s: string)
    requires s in GroupByCategoryAndStyle(items).buckets
    ensures BucketsCompatible(GroupByCategoryAndStyle(items).buckets[s]) <==> StyleCompatible(items, s)
  {
    var b := GroupByCategoryAndStyle(items).buckets[s];
    GroupingBucket(items, s, Superior);
    GroupingBucket(items, s, Inferior);
    GroupingBucket(items, s, Zapatos);
    GroupingBucket(items, s, Monopieza);
    SelectNonEmpty(items, s, Superior);
    SelectNonEmpty(items, s, Inferior);
    SelectNonEmpty(items, s, Zapatos);
    SelectNonEmpty(items, s, Monopieza);
  }

  /** `checkAvailability`. */
  function CheckAvailability(items: seq<Item>): (d: Disponibilidad)
    ensures Distinct(d.estilosCompatibles)
    ensures forall s :: s in d.estilosCompatibles <==> StyleCompatible(items, s)
    ensures d.puedeGenerarOutfits <==> exists i :: 0 <= i < |items| && StyleCompatible(items, items[i].estilo)
    ensures d.tieneZapatos == d.puedeGenerarOutfits
    ensures d.tieneSuperior == CompatibleHas(items, Superior)
    ensures d.tieneInferior == CompatibleHas(items, Inferior)
    ensures d.tieneExterior == CompatibleHas(items, Exterior)
    ensures d.tieneMonopieza == CompatibleHas(items, Monopieza)
    ensures d.tieneSuperInferior == (d.tieneSuperior && d.tieneInferior)
  {
    var g := GroupByCategoryAndStyle(items);
    var d := Scan(g, g.order);
    ScanFlag(g, g.order, Superior);
    ScanFlag(g, g.order, Inferior);
    ScanFlag(g, g.order, Exterior);
    ScanFlag(g, g.order, Monopieza);
    CompatibleStyles(items);
    SomeCompatibleStyle(items, d.estilosCompatibles);
    CompatibleFlag(items, Superior);
    CompatibleFlag(items, Inferior);
    CompatibleFlag(items, Exterior);
    CompatibleFlag(items, Monopieza);
    d.(tieneSuperInferior := d.tieneSuperior && d.tieneInferior,
       puedeGenerarOutfits := |d.estilosCompatibles| > 0)
  }

  lemma CompatibleStyles(items: seq<Item>)
    ensures var g := GroupByCategoryAndStyle(items);
      forall s :: s in g.order && BucketsCompatible(g.buckets[s]) <==> StyleCompatible(items, s)
  {
    var g := GroupByCategoryAndStyle(items);
    forall s | s in g.buckets {
      BucketsCompatibleIff(items, s);
    }
    forall s | StyleCompatible(items, s) ensures s in g.buckets {
      var i :| 0 <= i < |items| && items[i].estilo == s && items[i].categoria == Zapatos;
      GroupingStyles(items, s);
    }
  }

  lemma SomeCompatibleStyle(items: seq<Item>, styles: seq<string>)
    requires forall s :: s in styles <==> StyleCompatible(items, s)
    ensures |styles| > 0 <==> exists i :: 0 <= i < |items| && StyleCompatible(items, items[i].estilo)
  {
    if |styles| > 0 {
      var s := styles[0];
      assert s in styles;
      assert Has(items, s, Zapatos);
      var i :| 0 <= i < |items| && items[i].estilo == s && items[i].categoria == Zapatos;
    }
    if exists i :: 0 <= i < |items| && StyleCompatible(items, items[i].estilo) {
      var i :| 0 <= i < |items| && StyleCompatible(items, items[i].estilo);
      assert items[i].estilo in styles;
    }
  }

  lemma CompatibleFlag(items: seq<Item>, c: int)
    requires 1 <= c <= 5
    ensures var g := GroupByCategoryAndStyle(items);
      AnyCompatible(g, g.order, c) <==> CompatibleHas(items, c)
  {
    var g := GroupByCategoryAndStyle(items);
    if AnyCompatible(g, g.order, c) {
      var j :| 0 <= j < |g.order| && BucketsCompatible(g.buckets[g.order[j]]) && |g.buckets[g.order[j]].Of(c)| > 0;
      var s := g.order[j];
      BucketsCompatibleIff(items, s);
      GroupingBucket(items, s, c);
      SelectNonEmpty(items, s, c);
      var i :| 0 <= i < |items| && items[i].estilo == s && items[i].categoria == c;
    }
    if CompatibleHas(items, c) {
      var i :| 0 <= i < |items| && items[i].categoria == c && StyleCompatible(items, items[i].estilo);
      var s := items[i].estilo;
      GroupingStyles(items, s);
      var j :| 0 <= j < |g.order| && g.order[j] == s;
      BucketsCompatibleIff(items, s);
      GroupingBucket(items, s, c);
      SelectNonEmpty(items, s, c);
    }
  }

  // ---------------------------------------------------------------- counting

  lemma ProductZero(a: nat, b: nat)
    ensures a * b == 0 <==> a == 0 || b == 0
  {
    if a > 0 && b > 0 {
      assert a * b >= b by { assert a * b == (a - 1) * b + b; }
    }
  }

  /** The product shoes × (one-pieces + tops × bottoms) × (outerwear, or 1
      when there is none). */
  function MaxFormula(zapatos: nat, monopieza: nat, superior: nat, inferior: nat, exterior: nat): nat {
    zapatos * (monopieza + superior * inferior) * (if exterior == 0 then 1 else exterior)
  }

  lemma MaxFormulaZero(zapatos: nat, monopieza: nat, superior: nat, inferior: nat, exterior: nat)
    ensures MaxFormula(zapatos, monopieza, superior, inferior, exterior) == 0
        <==> zapatos == 0 || (monopieza == 0 && (superior == 0 || inferior == 0))
  {
    var combinaciones := monopieza + superior * inferior;
    ProductZero(superior, inferior);
    ProductZero(zapatos, combinaciones);
    ProductZero(zapatos * combinaciones, if exterior == 0 then 1 else exterior);
  }

  /** `calculateMaxOutfits`, over the whole list regardless of style. */
  function CalculateMaxOutfits(items: seq<Item>): (r: nat)
    ensures r == 0 <==> CountCat(items, Zapatos) == 0 || (CountCat(items, Monopieza) == 0
                        && (CountCat(items, Superior) == 0 || CountCat(items, Inferior) == 0))
  {
    var z, m, s, i, e := CountCat(items, Zapatos), CountCat(items, Monopieza), CountCat(items, Superior),
                         CountCat(items, Inferior), CountCat(items, Exterior);
    MaxFormulaZero(z, m, s, i, e);
    MaxFormula(z, m, s, i, e)
  }

  /** Whenever the availability check lets generation start, the loop
      target `min(count, maxUnicos)` is positive for a positive count. */
  lemma MaxOutfitsPositiveWhenGenerable(items: seq<Item>)
    requires CheckAvailability(items).puedeGenerarOutfits
    ensures CalculateMaxOutfits(items) >= 1
  {
    var i :| 0 <= i < |items| && StyleCompatible(items, items[i].estilo);
    CompatibleStyleCounts(items, items[i].estilo);
  }

  lemma CompatibleStyleCounts(items: seq<Item>, s: string)
    requires StyleCompatible(items, s)
    ensures CountCat(items, Zapatos) > 0
    ensures CountCat(items, Monopieza) > 0 || (CountCat(items, Superior) > 0 && CountCat(items, Inferior) > 0)
  {
    var z :| 0 <= z < |items| && items[z].estilo == s && items[z].categoria == Zapatos;
    if Has(items, s, Monopieza) {
      var m :| 0 <= m < |items| && items[m].estilo == s && items[m].categoria == Monopieza;
    } else {
      var t :| 0 <= t < |items| && items[t].estilo == s && items[t].categoria == Superior;
      var b :| 0 <= b < |items| && items[b].estilo == s && items[b].categoria == Inferior;
    }
  }

  /** One entry of the argument of `calculateMaxOutfitsByStyles`: the set of
      category ids seen for a style and that style's items. */
  datatype StyleData = StyleData(categorias: set<int>, prendas: seq<Item>)

  /** What one style adds in `calculateMaxOutfitsByStyles`: nothing without
      shoes, otherwise its one-pieces plus tops × bottoms, each term only
      when its categories are recorded. The number of shoes is not used. */
  function StyleContribution(sd: StyleData): nat {
    if Zapatos !in sd.categorias then 0
    else (if Monopieza in sd.categorias then CountCat(sd.prendas, Monopieza) else 0)
         + (if Superior in sd.categorias && Inferior in sd.categorias
            then CountCat(sd.prendas, Superior) * CountCat(sd.prendas, Inferior) else 0)
  }

  /** `calculateMaxOutfitsByStyles`: the `reduce` over the entries. */
  function CalculateMaxOutfitsByStyles(data: seq<StyleData>): (r: nat)
    ensures (forall k :: 0 <= k < |data| ==> Zapatos !in data[k].categorias) ==> r == 0
    decreases |data|
  {
    if |data| == 0 then 0
    else CalculateMaxOutfitsByStyles(data[..|data| - 1]) + StyleContribution(data[|data| - 1])
  }

  /** The bound is additive: the entries contribute independently. */
  lemma {:induction false} ByStylesAppend(a: seq<StyleData>, b: seq<StyleData>)
    ensures CalculateMaxOutfitsByStyles(a + b) == CalculateMaxOutfitsByStyles(a) + CalculateMaxOutfitsByStyles(b)
    decreases |b|
  {
    if |b| == 0 {
      assert a + b == a;
    } else {
      var b' := b[..|b| - 1];
      assert (a + b)[..|a + b| - 1] == a + b';
      ByStylesAppend(a, b');
    }
  }

  /** Styles without shoes add nothing, wherever they stand in the list:
      dropping them leaves the bound unchanged. */
  lemma {:induction false} ShoelessAddNothing(data: seq<StyleData>)
    ensures CalculateMaxOutfitsByStyles(Filter(data, (sd: StyleData) => Zapatos in sd.categorias))
            == CalculateMaxOutfitsByStyles(data)
    decreases |data|
  {
    var keep := (sd: StyleData) => Zapatos in sd.categorias;
    if |data| > 0 {
      var init := data[..|data| - 1];
      var last := data[|data| - 1];
      ShoelessAddNothing(init);
      var tail := if keep(last) then [last] else [];
      assert Filter(data, keep) == Filter(init, keep) + tail;
      ByStylesAppend(Filter(init, keep), tail);
      if keep(last) {
        assert [last][..0] == [];
      }
    }
  }

  /** An entry whose category set is exactly the categories of its items. */
  ghost predicate Consistent(sd: StyleData) {
    forall c :: c in sd.categorias <==> exists i :: 0 <= i < |sd.prendas| && sd.prendas[i].categoria == c
  }

  /** For a consistent entry with shoes, the category guards are redundant:
      the entry adds one-pieces + tops × bottoms. */
  lemma ConsistentContribution(sd: StyleData)
    requires Consistent(sd) && Zapatos in sd.categorias
    ensures StyleContribution(sd) == CountCat(sd.prendas, Monopieza)
                                     + CountCat(sd.prendas, Superior) * CountCat(sd.prendas, Inferior)
  {
    if Monopieza !in sd.categorias {
      assert CountCat(sd.prendas, Monopieza) == 0;
    }
    if !(Superior in sd.categorias && Inferior in sd.categorias) {
      assert CountCat(sd.prendas, Superior) == 0 || CountCat(sd.prendas, Inferior) == 0;
    }
  }

  /** For one consistent style with shoes, `calculateMaxOutfits` is the
      by-style count scaled by the number of shoes and of outerwear (or 1):
      the by-style count is per shoe and per coat. */
  lemma {:induction false} ByStylesAgreesOnOneStyle(sd: StyleData)
    requires Consistent(sd) && Zapatos in sd.categorias
    ensures CalculateMaxOutfits(sd.prendas)
            == CountCat(sd.prendas, Zapatos) * CalculateMaxOutfitsByStyles([sd])
               * (if CountCat(sd.prendas, Exterior) == 0 then 1 else CountCat(sd.prendas, Exterior))
  {
    assert [sd][..0] == [];
    ConsistentContribution(sd);
  }
}
