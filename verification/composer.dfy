/** The outfit composer `generateOutfit` and its single-style variant
    `generateOutfitFromSameStyle`. Every `Math.random()` the source calls is
    an argument here: an index draw `r` picks element `r % n` of an
    n-element list (`Math.floor(Math.random() * n)` reaches every index),
    and a coin stands for a threshold test such as `Math.random() > 0.5`. */
module Composer {
  import opened Basics
  import opened Garments
  import opened Availability

  /** The requested categories (`selectedCategories`). */
  datatype Policy = Policy(superior: bool, inferior: bool, zapatos: bool, exterior: bool, monopieza: bool)

  /** The random values one composition consumes: the style index, the
      shoe, one-piece, top, bottom and outerwear indices, the coin that
      prefers a one-piece over top and bottom, and the coin that adds
      outerwear. */
  datatype Draw = Draw(style: nat, shoe: nat, piece: nat, top: nat, bottom: nat, outer: nat,
                       coin: bool, coat: bool)

  /** `list[Math.floor(Math.random() * list.length)]`. */
  function Pick<T>(s: seq<T>, r: nat): (x: T)
    requires |s| > 0
    ensures x in s
  {
    s[r % |s|]
  }

  /** Every index of a non-empty list is drawn by some oracle value. */
  lemma PickReachesEveryIndex<T>(s: seq<T>, k: nat)
    requires k < |s|
    ensures Pick(s, k) == s[k]
  {
    assert k % |s| == k;
  }

  const NoCompatibleStyles := "No hay estilos con prendas compatibles"

  /** The special case of `generateOutfit`: a one-piece wanted and neither
      top nor bottom. */
  predicate OnePieceCase(p: Policy) {
    p.monopieza && !p.superior && !p.inferior
  }

  /** The style filter of the one-piece case, on the buckets. */
  predicate OnePieceReady(b: Buckets, p: Policy) {
    (p.zapatos ==> |b.zapatos| > 0) && |b.monopieza| > 0
  }

  /** The style filter of the general case, on the buckets. */
  predicate Eligible(b: Buckets, p: Policy) {
    var tieneZapatos := p.zapatos ==> |b.zapatos| > 0;
    var tieneMonopieza := p.monopieza ==> |b.monopieza| > 0;
    var tieneSuperInferior := (p.superior ==> |b.superior| > 0) && (p.inferior ==> |b.inferior| > 0);
    tieneZapatos && (tieneMonopieza || tieneSuperInferior || (!p.superior && !p.inferior))
  }

  /** The general-case style filter, stated on the inventory. */
  predicate StyleEligible(items: seq<Item>, p: Policy, s: string) {
    (p.zapatos ==> Has(items, s, Zapatos))
    && ((p.monopieza ==> Has(items, s, Monopieza))
        || ((p.superior ==> Has(items, s, Superior)) && (p.inferior ==> Has(items, s, Inferior)))
        || (!p.superior && !p.inferior))
  }

  /** The one-piece-case style filter, stated on the inventory. */
  predicate StyleOnePieceReady(items: seq<Item>, p: Policy, s: string) {
    (p.zapatos ==> Has(items, s, Zapatos)) && Has(items, s, Monopieza)
  }

  /** The styles of the grouping that pass the general filter, in key order. */
  function EligibleStyles(g: Grouped, p: Policy): (r: seq<string>)
    ensures forall s :: s in r <==> s in g.order && s in g.buckets && Eligible(g.buckets[s], p)
  {
    Filter(g.order, s => s in g.buckets && Eligible(g.buckets[s], p))
  }

  /** The styles of the grouping that pass the one-piece filter, in key order. */
  function OnePieceStyles(g: Grouped, p: Policy): (r: seq<string>)
    ensures forall s :: s in r <==> s in g.order && s in g.buckets && OnePieceReady(g.buckets[s], p)
  {
    Filter(g.order, s => s in g.buckets && OnePieceReady(g.buckets[s], p))
  }

  /** The one-piece case once a style is chosen: its first shoe when shoes
      are wanted, then its first one-piece. */
  function FirstPieces(b: Buckets, p: Policy): seq<Item> {
    (if p.zapatos && |b.zapatos| > 0 then [b.zapatos[0]] else [])
    + (if |b.monopieza| > 0 then [b.monopieza[0]] else [])
  }

  /** The shoe of the general case: one, when shoes are wanted and the
      style has any. */
  function ShoePart(b: Buckets, p: Policy, d: Draw): seq<Item> {
    if p.zapatos && |b.zapatos| > 0 then [Pick(b.zapatos, d.shoe)] else []
  }

  /** The body of the general case: a one-piece when one may be taken and
      either top and bottom may not or the coin says so, otherwise a top and
      a bottom when both may be taken, otherwise nothing. */
  function BodyPart(b: Buckets, p: Policy, d: Draw): seq<Item> {
    var puedeMonopieza := p.monopieza && |b.monopieza| > 0;
    var puedeSuperInferior := p.superior && p.inferior && |b.superior| > 0 && |b.inferior| > 0;
    if puedeMonopieza && (!puedeSuperInferior || d.coin) then [Pick(b.monopieza, d.piece)]
    else if puedeSuperInferior then [Pick(b.superior, d.top), Pick(b.inferior, d.bottom)]
    else []
  }

  /** The optional outerwear of the general case. */
  function CoatPart(b: Buckets, p: Policy, d: Draw): seq<Item> {
    if p.exterior && |b.exterior| > 0 && d.coat then [Pick(b.exterior, d.outer)] else []
  }

  /** The general case once a style is chosen: shoes, then a one-piece or
      a top and a bottom, then perhaps outerwear. */
  function Assemble(b: Buckets, p: Policy, d: Draw): seq<Item> {
    ShoePart(b, p, d) + BodyPart(b, p, d) + CoatPart(b, p, d)
  }

  /** `generateOutfit`: an error when the general case finds no eligible
      style, no outfit (`null`) when the composition is empty, otherwise
      the composed list. */
  function GenerateOutfit(items: seq<Item>, p: Policy, d: Draw): (r: Result<Option<seq<Item>>, string>)
    ensures r.Err? ==> r.error == NoCompatibleStyles
    ensures r.Ok? && r.value.Some? ==> |r.value.value| > 0
  {
    var g := GroupByCategoryAndStyle(items);
    if OnePieceCase(p) then
      var estilos := OnePieceStyles(g, p);
      if |estilos| > 0 then
        var o := FirstPieces(g.buckets[Pick(estilos, d.style)], p);
        Ok(if |o| > 0 then Some(o) else None)
      else Ok(None)
    else
      var estilos := EligibleStyles(g, p);
      if |estilos| == 0 then Err(NoCompatibleStyles)
      else
        var o := Assemble(g.buckets[Pick(estilos, d.style)], p, d);
        Ok(if |o| > 0 then Some(o) else None)
  }

  // ---------------------------------------------------------------- filters on the inventory

  lemma EligibleIff(items: seq<Item>, p: Policy, s: string)
    requires s in GroupByCategoryAndStyle(items).buckets
    ensures Eligible(GroupByCategoryAndStyle(items).buckets[s], p) <==> StyleEligible(items, p, s)
    ensures OnePieceReady(GroupByCategoryAndStyle(items).buckets[s], p) <==> StyleOnePieceReady(items, p, s)
  {
    var b := GroupByCategoryAndStyle(items).buckets[s];
    forall c | 1 <= c <= 5 ensures |b.Of(c)| > 0 <==> Has(items, s, c) {
      GroupingBucket(items, s, c);
      SelectNonEmpty(items, s, c);
    }
    assert b.Of(1) == b.superior && b.Of(2) == b.inferior && b.Of(3) == b.zapatos && b.Of(5) == b.monopieza;
  }

  /** Some inventory item's style passes the general filter. */
  predicate AnyEligible(items: seq<Item>, p: Policy) {
    exists i :: 0 <= i < |items| && StyleEligible(items, p, items[i].estilo)
  }

  /** Some inventory item's style passes the one-piece filter. */
  predicate AnyOnePieceReady(items: seq<Item>, p: Policy) {
    exists i :: 0 <= i < |items| && StyleOnePieceReady(items, p, items[i].estilo)
  }

  lemma EligibleStylesIff(items: seq<Item>, p: Policy)
    ensures var g := GroupByCategoryAndStyle(items);
      (|EligibleStyles(g, p)| > 0 <==> AnyEligible(items, p))
      && (|OnePieceStyles(g, p)| > 0 <==> AnyOnePieceReady(items, p))
  {
    var g := GroupByCategoryAndStyle(items);
    if |EligibleStyles(g, p)| > 0 {
      var s := EligibleStyles(g, p)[0];
      assert s in EligibleStyles(g, p);
      EligibleIff(items, p, s);
      GroupingStyles(items, s);
      var i :| 0 <= i < |items| && items[i].estilo == s;
    }
    if AnyEligible(items, p) {
      var i :| 0 <= i < |items| && StyleEligible(items, p, items[i].estilo);
      GroupingStyles(items, items[i].estilo);
      EligibleIff(items, p, items[i].estilo);
      assert items[i].estilo in EligibleStyles(g, p);
    }
    if |OnePieceStyles(g, p)| > 0 {
      var s := OnePieceStyles(g, p)[0];
      assert s in OnePieceStyles(g, p);
      EligibleIff(items, p, s);
      GroupingStyles(items, s);
      var i :| 0 <= i < |items| && items[i].estilo == s;
    }
    if AnyOnePieceReady(items, p) {
      var i :| 0 <= i < |items| && StyleOnePieceReady(items, p, items[i].estilo);
      GroupingStyles(items, items[i].estilo);
      EligibleIff(items, p, items[i].estilo);
      assert items[i].estilo in OnePieceStyles(g, p);
    }
  }

  /** `generateOutfit` throws exactly when it is not in the one-piece case
      and no style of the inventory passes the general filter; in the
      one-piece case it returns `null` exactly when no style has a one-piece
      (and a shoe, when shoes are wanted). */
  lemma GenerateOutfitOutcome(items: seq<Item>, p: Policy, d: Draw)
    ensures GenerateOutfit(items, p, d).Err? <==> !OnePieceCase(p) && !AnyEligible(items, p)
    ensures OnePieceCase(p) ==> (GenerateOutfit(items, p, d) == Ok(None) <==> !AnyOnePieceReady(items, p))
  {
    EligibleStylesIff(items, p);
  }

  // ---------------------------------------------------------------- shape of a composed outfit

  lemma {:induction false} CountCatAppend(a: seq<Item>, b: seq<Item>, c: int)
    ensures CountCat(a + b, c) == CountCat(a, c) + CountCat(b, c)
    decreases |b|
  {
    if |b| == 0 {
      assert a + b == a;
    } else {
      assert (a + b)[..|a + b| - 1] == a + b[..|b| - 1];
      CountCatAppend(a, b[..|b| - 1], c);
    }
  }

  lemma CountCatOne(x: Item, c: int)
    ensures CountCat([x], c) == if x.categoria == c then 1 else 0
  {
    assert [x][..0] == [];
  }

  lemma CountCatTwo(x: Item, y: Item, c: int)
    ensures CountCat([x, y], c) == (if x.categoria == c then 1 else 0) + (if y.categoria == c then 1 else 0)
  {
    assert [x, y] == [x] + [y];
    CountCatAppend([x], [y], c);
    CountCatOne(x, c);
    CountCatOne(y, c);
  }

  /** The shape the general case promises: items of one style from the
      inventory, exactly one shoe when shoes are wanted and none otherwise,
      a body that is one one-piece, or one top and one bottom, or nothing,
      and at most one outerwear item, only when outerwear is wanted. */
  predicate WellFormed(items: seq<Item>, p: Policy, o: seq<Item>) {
    && |o| > 0
    && (forall x :: x in o ==> x in items && x.estilo == o[0].estilo && 1 <= x.categoria <= 5)
    && CountCat(o, Zapatos) == (if p.zapatos then 1 else 0)
    && CountCat(o, Exterior) <= (if p.exterior then 1 else 0)
    && ((CountCat(o, Monopieza) == 1 && CountCat(o, Superior) == 0 && CountCat(o, Inferior) == 0)
        || (CountCat(o, Monopieza) == 0 && CountCat(o, Superior) == 1 && CountCat(o, Inferior) == 1)
        || (CountCat(o, Monopieza) == 0 && CountCat(o, Superior) == 0 && CountCat(o, Inferior) == 0))
    && (CountCat(o, Monopieza) > 0 ==> p.monopieza)
    && (CountCat(o, Superior) > 0 ==> p.superior && p.inferior)
  }

  /** Every item of bucket `c` of `b` is an inventory item of style `s` and
      category `c`. */
  ghost predicate Sound(items: seq<Item>, s: string, b: Buckets) {
    forall c, x :: 1 <= c <= 5 && x in b.Of(c) ==> x in items && x.estilo == s && x.categoria == c
  }

  lemma GroupedSound(items: seq<Item>, s: string)
    requires s in GroupByCategoryAndStyle(items).buckets
    ensures Sound(items, s, GroupByCategoryAndStyle(items).buckets[s])
  {
    forall c | 1 <= c <= 5 {
      GroupingBucket(items, s, c);
    }
  }

  /** The per-category counts of a list holding one item of category `k`. */
  lemma CountSingle(o: seq<Item>, k: int)
    requires |o| == 1 && o[0].categoria == k
    ensures forall c :: CountCat(o, c) == if c == k then 1 else 0
  {
    assert o == [o[0]];
    forall c ensures CountCat(o, c) == if c == k then 1 else 0 {
      CountCatOne(o[0], c);
    }
  }

  lemma AssembleMembers(items: seq<Item>, s: string, b: Buckets, p: Policy, d: Draw)
    requires Sound(items, s, b)
    ensures forall x :: x in Assemble(b, p, d) ==> x in items && x.estilo == s && 1 <= x.categoria <= 5
  {
    assert b.Of(1) == b.superior && b.Of(2) == b.inferior && b.Of(3) == b.zapatos;
    assert b.Of(4) == b.exterior && b.Of(5) == b.monopieza;
  }

  /** The shoe part is one shoe or nothing. */
  lemma ShoeCounts(items: seq<Item>, s: string, b: Buckets, p: Policy, d: Draw)
    requires Sound(items, s, b)
    ensures var shoe := ShoePart(b, p, d);
      forall c :: CountCat(shoe, c) == if c == Zapatos && |shoe| > 0 then 1 else 0
  {
    var shoe := ShoePart(b, p, d);
    assert b.Of(3) == b.zapatos;
    if |shoe| > 0 {
      CountSingle(shoe, Zapatos);
    }
  }

  /** The coat part is one outerwear item, only when outerwear is wanted,
      or nothing. */
  lemma CoatCounts(items: seq<Item>, s: string, b: Buckets, p: Policy, d: Draw)
    requires Sound(items, s, b)
    ensures var coat := CoatPart(b, p, d);
      && (|coat| > 0 ==> p.exterior)
      && forall c :: CountCat(coat, c) == if c == Exterior && |coat| > 0 then 1 else 0
  {
    var coat := CoatPart(b, p, d);
    assert b.Of(4) == b.exterior;
    if |coat| > 0 {
      CountSingle(coat, Exterior);
    }
  }

  /** The body part is a one-piece, or a top and a bottom, or nothing, and
      never a shoe or outerwear. */
  lemma BodyCounts(items: seq<Item>, s: string, b: Buckets, p: Policy, d: Draw)
    requires Sound(items, s, b)
    ensures var body := BodyPart(b, p, d);
      && CountCat(body, Zapatos) == 0 && CountCat(body, Exterior) == 0
      && ((CountCat(body, Monopieza) == 1 && CountCat(body, Superior) == 0 && CountCat(body, Inferior) == 0
           && p.monopieza)
          || (CountCat(body, Monopieza) == 0 && CountCat(body, Superior) == 1 && CountCat(body, Inferior) == 1
              && p.superior && p.inferior)
          || (CountCat(body, Monopieza) == 0 && CountCat(body, Superior) == 0 && CountCat(body, Inferior) == 0))
  {
    var body := BodyPart(b, p, d);
    assert b.Of(1) == b.superior && b.Of(2) == b.inferior && b.Of(5) == b.monopieza;
    if |body| == 1 {
      CountSingle(body, Monopieza);
    } else if |body| == 2 {
      forall c ensures CountCat(body, c) == if c == Superior || c == Inferior then 1 else 0 {
        CountCatTwo(body[0], body[1], c);
      }
    }
  }

  /** The count of a category in an outfit is the sum over its parts. */
  lemma AssembleCount(b: Buckets, p: Policy, d: Draw, c: int)
    ensures CountCat(Assemble(b, p, d), c)
            == CountCat(ShoePart(b, p, d), c) + CountCat(BodyPart(b, p, d), c) + CountCat(CoatPart(b, p, d), c)
  {
    CountCatAppend(ShoePart(b, p, d) + BodyPart(b, p, d), CoatPart(b, p, d), c);
    CountCatAppend(ShoePart(b, p, d), BodyPart(b, p, d), c);
  }

  lemma AssembleCounts(items: seq<Item>, s: string, b: Buckets, p: Policy, d: Draw)
    requires Sound(items, s, b)
    requires Eligible(b, p)
    ensures var o := Assemble(b, p, d);
      && CountCat(o, Zapatos) == (if p.zapatos then 1 else 0)
      && CountCat(o, Exterior) <= (if p.exterior then 1 else 0)
      && ((CountCat(o, Monopieza) == 1 && CountCat(o, Superior) == 0 && CountCat(o, Inferior) == 0)
          || (CountCat(o, Monopieza) == 0 && CountCat(o, Superior) == 1 && CountCat(o, Inferior) == 1)
          || (CountCat(o, Monopieza) == 0 && CountCat(o, Superior) == 0 && CountCat(o, Inferior) == 0))
      && (CountCat(o, Monopieza) > 0 ==> p.monopieza)
      && (CountCat(o, Superior) > 0 ==> p.superior && p.inferior)
  {
    var shoe, body, coat := ShoePart(b, p, d), BodyPart(b, p, d), CoatPart(b, p, d);
    AssembleCount(b, p, d, Zapatos);
    AssembleCount(b, p, d, Exterior);
    AssembleCount(b, p, d, Monopieza);
    AssembleCount(b, p, d, Superior);
    AssembleCount(b, p, d, Inferior);
    ShoeCounts(items, s, b, p, d);
    BodyCounts(items, s, b, p, d);
    CoatCounts(items, s, b, p, d);
    assert |shoe| > 0 <==> p.zapatos;
  }

  /** Every outfit of the general case is well formed. */
  lemma GeneralOutfitWellFormed(items: seq<Item>, p: Policy, d: Draw)
    requires !OnePieceCase(p)
    requires GenerateOutfit(items, p, d).Ok? && GenerateOutfit(items, p, d).value.Some?
    ensures WellFormed(items, p, GenerateOutfit(items, p, d).value.value)
  {
    var g := GroupByCategoryAndStyle(items);
    var estilos := EligibleStyles(g, p);
    var s := Pick(estilos, d.style);
    GroupedSound(items, s);
    AssembleMembers(items, s, g.buckets[s], p, d);
    AssembleCounts(items, s, g.buckets[s], p, d);
    var o := Assemble(g.buckets[s], p, d);
    assert o[0] in o;
  }

  /** The first items of bucket `c` of style `s`, read off the inventory. */
  function First(items: seq<Item>, s: string, c: int): (r: seq<Item>)
    ensures |r| <= 1
    ensures |r| == 1 <==> Has(items, s, c)
  {
    SelectNonEmpty(items, s, c);
    var sel := Select(items, s, c);
    if |sel| > 0 then [sel[0]] else []
  }

  /** In the one-piece case the outfit is the first shoe of the chosen style
      (when shoes are wanted) followed by its first one-piece, whatever the
      other draws are; no outerwear is ever added. */
  lemma OnePieceOutfitForm(items: seq<Item>, p: Policy, d: Draw)
    requires OnePieceCase(p)
    requires GenerateOutfit(items, p, d).Ok? && GenerateOutfit(items, p, d).value.Some?
    ensures var o := GenerateOutfit(items, p, d).value.value;
      var s := o[|o| - 1].estilo;
      && StyleOnePieceReady(items, p, s)
      && o == (if p.zapatos then First(items, s, Zapatos) else []) + First(items, s, Monopieza)
  {
    var g := GroupByCategoryAndStyle(items);
    var estilos := OnePieceStyles(g, p);
    var s := Pick(estilos, d.style);
    var b := g.buckets[s];
    EligibleIff(items, p, s);
    GroupingBucket(items, s, Zapatos);
    GroupingBucket(items, s, Monopieza);
    assert b.Of(3) == b.zapatos && b.Of(5) == b.monopieza;
    var o := FirstPieces(b, p);
    assert Select(items, s, Monopieza)[0] in Select(items, s, Monopieza);
    assert o[|o| - 1] == b.monopieza[0];
  }

  /** In the one-piece case the draws other than the style index do not
      matter, so an inventory with a single one-piece-ready style always
      yields the same outfit. */
  lemma OnePieceIgnoresDraws(items: seq<Item>, p: Policy, d1: Draw, d2: Draw)
    requires OnePieceCase(p)
    requires d1.style == d2.style
    ensures GenerateOutfit(items, p, d1) == GenerateOutfit(items, p, d2)
  {
  }

  // ---------------------------------------------------------------- same-style variant

  /** `prendas.filter(p => p.id_categoria === c)`. */
  function OfCategory(prendas: seq<Item>, c: int): (r: seq<Item>)
    ensures forall x :: x in r <==> x in prendas && x.categoria == c
  {
    Filter(prendas, (x: Item) => x.categoria == c)
  }

  /** `generateOutfitFromSameStyle`: categories are split without regard to
      style; no shoe, or neither a one-piece nor a top and a bottom, gives
      `null`. */
  function GenerateOutfitFromSameStyle(prendas: seq<Item>, d: Draw): (r: Option<seq<Item>>)
    ensures r.Some? ==> |r.value| > 0 && forall x :: x in r.value ==> x in prendas
  {
    var zapatos := OfCategory(prendas, Zapatos);
    var superiores := OfCategory(prendas, Superior);
    var inferiores := OfCategory(prendas, Inferior);
    var monopiezas := OfCategory(prendas, Monopieza);
    var exteriores := OfCategory(prendas, Exterior);
    if |zapatos| == 0 then None
    else
      var shoe := [Pick(zapatos, d.shoe)];
      var puedeMonopieza := |monopiezas| > 0;
      var puedeSuperInferior := |superiores| > 0 && |inferiores| > 0;
      if !puedeMonopieza && !puedeSuperInferior then None
      else
        var body :=
          if puedeMonopieza && (!puedeSuperInferior || d.coin) then [Pick(monopiezas, d.piece)]
          else [Pick(superiores, d.top), Pick(inferiores, d.bottom)];
        var coat := if |exteriores| > 0 && d.coat then [Pick(exteriores, d.outer)] else [];
        Some(shoe + body + coat)
  }

  /** All five categories requested. */
  const Everything := Policy(true, true, true, true, true)

  /** Every item has style `s`. */
  predicate OneStyle(items: seq<Item>, s: string) {
    forall i :: 0 <= i < |items| ==> items[i].estilo == s
  }

  lemma {:induction false} SelectOneStyle(items: seq<Item>, s: string, c: int)
    requires OneStyle(items, s)
    ensures Select(items, s, c) == OfCategory(items, c)
    decreases |items|
  {
    if |items| > 0 {
      SelectOneStyle(items[..|items| - 1], s, c);
    }
  }

  lemma DistinctHead(xs: seq<string>)
    requires Distinct(xs) && |xs| > 1
    ensures xs[0] != xs[1] && xs[1] in xs
  {
  }

  lemma DistinctConstant(xs: seq<string>, s: string)
    requires Distinct(xs) && s in xs
    requires forall t :: t in xs ==> t == s
    ensures xs == [s]
  {
    assert xs[0] in xs;
    if |xs| > 1 {
      DistinctHead(xs);
      assert false;
    }
  }

  lemma OneStyleOrder(items: seq<Item>, s: string)
    requires |items| > 0 && OneStyle(items, s)
    ensures GroupByCategoryAndStyle(items).order == [s]
  {
    var g := GroupByCategoryAndStyle(items);
    GroupingStyles(items, s);
    assert items[0].estilo == s;
    forall t | t in g.order ensures t == s {
      GroupingStyles(items, t);
      var i :| 0 <= i < |items| && items[i].estilo == t;
    }
    assert s in g.order;
    DistinctConstant(g.order, s);
  }

  /** With the category lists of one style in hand, the same-style variant
      composes exactly what the general case composes. */
  lemma SameStyleOnBuckets(prendas: seq<Item>, b: Buckets, d: Draw)
    requires forall c :: 1 <= c <= 5 ==> b.Of(c) == OfCategory(prendas, c)
    ensures GenerateOutfitFromSameStyle(prendas, d)
            == if !Eligible(b, Everything) then None
               else if |Assemble(b, Everything, d)| > 0 then Some(Assemble(b, Everything, d)) else None
  {
    assert b.Of(1) == b.superior && b.Of(2) == b.inferior && b.Of(3) == b.zapatos;
    assert b.Of(4) == b.exterior && b.Of(5) == b.monopieza;
  }

  /** In the general case with a single eligible style, the outfit is that
      style's composition. */
  lemma GeneralWithOneStyle(items: seq<Item>, p: Policy, d: Draw, s: string)
    requires !OnePieceCase(p)
    requires EligibleStyles(GroupByCategoryAndStyle(items), p) == [s]
    ensures s in GroupByCategoryAndStyle(items).buckets
    ensures var o := Assemble(GroupByCategoryAndStyle(items).buckets[s], p, d);
      GenerateOutfit(items, p, d) == Ok(if |o| > 0 then Some(o) else None)
  {
    assert s in EligibleStyles(GroupByCategoryAndStyle(items), p);
  }

  /** On an inventory of one style, the style's lists are the category
      lists of the whole inventory. */
  lemma OneStyleBuckets(items: seq<Item>, s: string)
    requires |items| > 0 && OneStyle(items, s)
    ensures GroupByCategoryAndStyle(items).order == [s]
    ensures s in GroupByCategoryAndStyle(items).buckets
    ensures forall c :: 1 <= c <= 5 ==> GroupByCategoryAndStyle(items).buckets[s].Of(c) == OfCategory(items, c)
  {
    var g := GroupByCategoryAndStyle(items);
    OneStyleOrder(items, s);
    assert s in g.order;
    forall c | 1 <= c <= 5 ensures g.buckets[s].Of(c) == OfCategory(items, c) {
      GroupingBucket(items, s, c);
      SelectOneStyle(items, s, c);
    }
  }

  /** With a single key, the general filter keeps that key or nothing. */
  lemma SingleKeyStyles(g: Grouped, s: string, p: Policy)
    requires g.order == [s] && s in g.buckets
    ensures EligibleStyles(g, p) == if Eligible(g.buckets[s], p) then [s] else []
  {
    if Eligible(g.buckets[s], p) {
      FilterAll(g.order, s => s in g.buckets && Eligible(g.buckets[s], p));
    } else {
      assert s !in EligibleStyles(g, p);
    }
  }

  /** On an inventory of one style, the same-style variant is `generateOutfit`
      with every category requested: it builds the same outfit from the same
      draws, and returns `null` exactly where `generateOutfit` throws. */
  lemma SameStyleAgreesWithGenerateOutfit(items: seq<Item>, s: string, d: Draw)
    requires |items| > 0 && OneStyle(items, s)
    ensures GenerateOutfitFromSameStyle(items, d)
            == (match GenerateOutfit(items, Everything, d) case Ok(o) => o case Err(_) => None)
  {
    var g := GroupByCategoryAndStyle(items);
    OneStyleBuckets(items, s);
    var b := g.buckets[s];
    SameStyleOnBuckets(items, b, d);
    SingleKeyStyles(g, s, Everything);
    if Eligible(b, Everything) {
      GeneralWithOneStyle(items, Everything, d, s);
    }
  }
}
