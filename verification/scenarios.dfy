/** Two shapes of inventory that show `maxUnicos` is not the number of
    distinct outfits the generator can reach: one where it is too large, so
    the accept loop never reaches its target, and one where it is too
    small. Both are stated for any items of the given shape. */
module Scenarios {
  import opened Basics
  import opened Garments
  import opened Availability
  import opened Composer
  import opened OutfitKey
  import opened Store
  import opened Generator

  /** `[x]` when `x` has style `s` and category `c`, else `[]`. */
  function Only(x: Item, s: string, c: int): seq<Item> {
    if x.estilo == s && x.categoria == c then [x] else []
  }

  function OneIf(x: Item, c: int): nat {
    if x.categoria == c then 1 else 0
  }

  lemma SelectSnoc(items: seq<Item>, x: Item, s: string, c: int)
    ensures Select(items + [x], s, c) == Select(items, s, c) + Only(x, s, c)
    ensures CountCat(items + [x], c) == CountCat(items, c) + OneIf(x, c)
  {
    assert (items + [x])[..|items|] == items;
  }

  lemma SelectFour(a: Item, b: Item, d: Item, e: Item, s: string, c: int)
    ensures Select([a, b, d, e], s, c) == Only(a, s, c) + Only(b, s, c) + Only(d, s, c) + Only(e, s, c)
    ensures CountCat([a, b, d, e], c) == OneIf(a, c) + OneIf(b, c) + OneIf(d, c) + OneIf(e, c)
  {
    SelectThree(a, b, d, s, c);
    SelectSnoc([a, b, d], e, s, c);
    assert [a, b, d] + [e] == [a, b, d, e];
  }

  lemma SelectThree(a: Item, b: Item, d: Item, s: string, c: int)
    ensures Select([a, b, d], s, c) == Only(a, s, c) + Only(b, s, c) + Only(d, s, c)
    ensures CountCat([a, b, d], c) == OneIf(a, c) + OneIf(b, c) + OneIf(d, c)
  {
    SelectTwo(a, b, s, c);
    SelectSnoc([a, b], d, s, c);
    assert [a, b] + [d] == [a, b, d];
  }

  lemma SelectTwo(a: Item, b: Item, s: string, c: int)
    ensures Select([a, b], s, c) == Only(a, s, c) + Only(b, s, c)
    ensures CountCat([a, b], c) == OneIf(a, c) + OneIf(b, c)
  {
    SelectSnoc([a], b, s, c);
    assert [a] + [b] == [a, b];
    assert [a][..0] == [];
  }

  // ---------------------------------------------------------------- the loop that does not stop

  /** Shoes and one-pieces requested: the one-piece case. */
  const ShoesAndDress := Policy(false, false, true, false, true)

  /** One user's inventory of a single style: a pair of shoes followed by
      two one-pieces, every item with a colour. */
  predicate SpinShape(t: seq<Item>, user: int) {
    && |t| == 3
    && t[0].categoria == Zapatos && t[1].categoria == Monopieza && t[2].categoria == Monopieza
    && t[1].estilo == t[0].estilo && t[2].estilo == t[0].estilo
    && (forall i :: 0 <= i < 3 ==> t[i].owner == user && t[i].color.Some?)
  }

  lemma SpinCounts(t: seq<Item>, user: int)
    requires SpinShape(t, user)
    ensures Select(t, t[0].estilo, Zapatos) == [t[0]]
    ensures Select(t, t[0].estilo, Monopieza) == [t[1], t[2]]
    ensures CountCat(t, Zapatos) == 1 && CountCat(t, Monopieza) == 2
    ensures CountCat(t, Superior) == 0 && CountCat(t, Inferior) == 0 && CountCat(t, Exterior) == 0
    ensures Has(t, t[0].estilo, Zapatos) && Has(t, t[0].estilo, Monopieza)
  {
    assert t == [t[0], t[1], t[2]];
    SpinSelect(t[0], t[1], t[2]);
    SpinAbsent(t[0], t[1], t[2]);
  }

  /** A pair of shoes and two one-pieces of its style select by category
      as expected. */
  lemma SpinSelect(a: Item, b: Item, d: Item)
    requires a.categoria == Zapatos && b.categoria == Monopieza && d.categoria == Monopieza
    requires b.estilo == a.estilo && d.estilo == a.estilo
    ensures Select([a, b, d], a.estilo, Zapatos) == [a]
    ensures Select([a, b, d], a.estilo, Monopieza) == [b, d]
    ensures CountCat([a, b, d], Zapatos) == 1 && CountCat([a, b, d], Monopieza) == 2
  {
    var s := a.estilo;
    SelectThree(a, b, d, s, Zapatos);
    assert Select([a, b, d], s, Zapatos) == [a] + [] + [];
    SelectThree(a, b, d, s, Monopieza);
    assert Select([a, b, d], s, Monopieza) == [] + [b] + [d];
  }

  /** Nor do they hold a top, a bottom or an outerwear item. */
  lemma SpinAbsent(a: Item, b: Item, d: Item)
    requires a.categoria == Zapatos && b.categoria == Monopieza && d.categoria == Monopieza
    ensures CountCat([a, b, d], Superior) == 0 && CountCat([a, b, d], Inferior) == 0
    ensures CountCat([a, b, d], Exterior) == 0
  {
    SelectThree(a, b, d, a.estilo, Superior);
    SelectThree(a, b, d, a.estilo, Inferior);
    SelectThree(a, b, d, a.estilo, Exterior);
  }

  lemma SpinComposes(t: seq<Item>, user: int, d: Draw)
    requires SpinShape(t, user)
    ensures GenerateOutfit(t, ShoesAndDress, d).Ok? && GenerateOutfit(t, ShoesAndDress, d).value.Some?
  {
    SpinCounts(t, user);
    assert StyleOnePieceReady(t, ShoesAndDress, t[0].estilo);
    GenerateOutfitOutcome(t, ShoesAndDress, d);
  }

  /** The one-piece composition of a style of this inventory. */
  lemma SpinForm(t: seq<Item>, user: int, s: string, o: seq<Item>)
    requires SpinShape(t, user)
    requires Has(t, s, Monopieza) && o == First(t, s, Zapatos) + First(t, s, Monopieza)
    ensures o == [t[0], t[1]]
  {
    var i :| 0 <= i < |t| && t[i].estilo == s && t[i].categoria == Monopieza;
    assert i == 0 || i == 1 || i == 2;
    assert s == t[0].estilo;
    SpinCounts(t, user);
    assert First(t, s, Zapatos) == [t[0]];
    assert First(t, s, Monopieza) == [t[1]];
  }

  /** Every draw composes the same outfit: the shoe and the first
      one-piece. */
  lemma SpinCandidate(t: seq<Item>, user: int, d: Draw)
    requires SpinShape(t, user)
    ensures Candidate(t, ShoesAndDress, d) == Some([t[0], t[1]])
  {
    SpinComposes(t, user, d);
    OnePieceOutfitForm(t, ShoesAndDress, d);
    var o := GenerateOutfit(t, ShoesAndDress, d).value.value;
    SpinForm(t, user, o[|o| - 1].estilo, o);
  }

  /** Once one outfit is accepted, no draw adds another. */
  lemma {:induction false} StuckAfterFirst(t: seq<Item>, user: int, goal: nat, draws: seq<Draw>)
    requires SpinShape(t, user) && goal >= 2
    ensures Accepted(t, ShoesAndDress, goal, draws, [[t[0], t[1]]]) == [[t[0], t[1]]]
    ensures Accept(t, ShoesAndDress, goal, draws, [[t[0], t[1]]]) == None
    decreases |draws|
  {
    if |draws| > 0 {
      var o := [t[0], t[1]];
      var acc := [o];
      SpinCandidate(t, user, draws[0]);
      assert acc[0] == o;
      assert !IsNew(acc, o);
      AcceptSkips(t, ShoesAndDress, goal, draws, acc);
      StuckAfterFirst(t, user, goal, draws[1..]);
    }
  }

  /** From no accepted outfit, a target of two is never reached. */
  lemma SpinAccept(t: seq<Item>, user: int, draws: seq<Draw>)
    requires SpinShape(t, user)
    ensures Accept(t, ShoesAndDress, 2, draws, []) == None
    ensures |draws| > 0 ==> Accepted(t, ShoesAndDress, 2, draws, []) == [[t[0], t[1]]]
  {
    if |draws| > 0 {
      SpinCandidate(t, user, draws[0]);
      var o := [t[0], t[1]];
      AcceptTakes(t, ShoesAndDress, 2, draws, [], o);
      assert [] + [o] == [o];
      StuckAfterFirst(t, user, 2, draws[1..]);
    }
  }

  lemma SpinInventory(t: seq<Item>, user: int)
    requires SpinShape(t, user)
    ensures Inventory(t, user, None, ShoesAndDress) == t
    ensures CheckAvailability(t).puedeGenerarOutfits
    ensures CalculateMaxOutfits(t) == 2
  {
    FetchEverything(t, user, None);
    FilterByCategoriesKeepsWanted(t, ShoesAndDress);
    SpinCounts(t, user);
    assert StyleCompatible(t, t[0].estilo);
  }

  /** `maxUnicos` counts two outfits for this inventory, yet only one is
      reachable, so a request for three days runs out of any finite
      supply of draws: the real loop would not stop. By then the first
      draw has written its outfit, the shoe with the first one-piece. */
  lemma OnePieceInventorySpins(db: Db, t: seq<Item>, user: int, stackId: int, start: int, draws: seq<Draw>)
    requires SpinShape(t, user)
    ensures CalculateMaxOutfits(t) == 2
    ensures GenerateAndGetOutfits(db, t, user, stackId, 3, None, ShoesAndDress, start, draws).outcome == Spinning
    ensures |draws| > 0 ==> Accepted(t, ShoesAndDress, 2, draws, []) == [[t[0], t[1]]]
    ensures |draws| > 0 ==> GenerateAndGetOutfits(db, t, user, stackId, 3, None, ShoesAndDress, start, draws).db.nextOutfit
                            == db.nextOutfit + 1
  {
    SpinInventory(t, user);
    SpinAccept(t, user, draws);
  }

  // ---------------------------------------------------------------- reachable outfits beyond the count

  /** One style with one item of each of shoes, top, bottom and outerwear,
      in that order. */
  predicate CasualShape(t: seq<Item>) {
    && |t| == 4
    && t[0].categoria == Zapatos && t[1].categoria == Superior
    && t[2].categoria == Inferior && t[3].categoria == Exterior
    && t[1].estilo == t[0].estilo && t[2].estilo == t[0].estilo && t[3].estilo == t[0].estilo
  }

  /** The position of category `c` in a casual-shaped inventory. */
  function CasualSlot(c: int): nat {
    if c == Zapatos then 0 else if c == Superior then 1 else if c == Inferior then 2 else 3
  }

  lemma CasualCounts(t: seq<Item>, c: int)
    requires CasualShape(t) && 1 <= c <= 5
    ensures OneStyle(t, t[0].estilo)
    ensures OfCategory(t, c) == if c == Monopieza then [] else [t[CasualSlot(c)]]
    ensures CountCat(t, c) == if c == Monopieza then 0 else 1
  {
    var s := t[0].estilo;
    assert OneStyle(t, s) by {
      forall i | 0 <= i < 4 ensures t[i].estilo == s {
        assert i == 0 || i == 1 || i == 2 || i == 3;
      }
    }
    assert t == [t[0], t[1], t[2], t[3]];
    CasualSelect(t[0], t[1], t[2], t[3], s, c);
    SelectOneStyle(t, s, c);
  }

  /** In a casual-shaped list each category but the one-piece selects its
      single item. */
  lemma CasualSelect(a: Item, b: Item, d: Item, e: Item, s: string, c: int)
    requires CasualShape([a, b, d, e]) && a.estilo == s && 1 <= c <= 5
    ensures Select([a, b, d, e], s, c) == if c == Monopieza then [] else [[a, b, d, e][CasualSlot(c)]]
    ensures CountCat([a, b, d, e], c) == if c == Monopieza then 0 else 1
  {
    SelectFour(a, b, d, e, s, c);
    if c == Zapatos {
      assert Select([a, b, d, e], s, c) == [a] + [] + [] + [];
    } else if c == Superior {
      assert Select([a, b, d, e], s, c) == [] + [b] + [] + [];
    } else if c == Inferior {
      assert Select([a, b, d, e], s, c) == [] + [] + [d] + [];
    } else if c == Exterior {
      assert Select([a, b, d, e], s, c) == [] + [] + [] + [e];
    }
  }

  /** Whatever the draw, the same-style composition is the shoe, the top and
      the bottom, plus the outerwear item exactly when the coat coin says
      so. */
  lemma CasualSameStyle(t: seq<Item>, d: Draw)
    requires CasualShape(t)
    ensures GenerateOutfitFromSameStyle(t, d) == Some([t[0], t[1], t[2]] + if d.coat then [t[3]] else [])
  {
    CasualCounts(t, Zapatos);
    CasualCounts(t, Superior);
    CasualCounts(t, Inferior);
    CasualCounts(t, Monopieza);
    CasualCounts(t, Exterior);
    OneOfEach(t, d, t[0], t[1], t[2], t[3]);
  }

  /** With exactly one shoe, top, bottom and outerwear item and no
      one-piece, the same-style composition is fixed up to the coat coin. */
  lemma OneOfEach(t: seq<Item>, d: Draw, z: Item, s: Item, i: Item, e: Item)
    requires OfCategory(t, Zapatos) == [z] && OfCategory(t, Superior) == [s]
    requires OfCategory(t, Inferior) == [i] && OfCategory(t, Exterior) == [e]
    requires OfCategory(t, Monopieza) == []
    ensures GenerateOutfitFromSameStyle(t, d) == Some([z, s, i] + if d.coat then [e] else [])
  {
    assert Pick([z], d.shoe) == z && Pick([s], d.top) == s && Pick([i], d.bottom) == i && Pick([e], d.outer) == e;
    var coat := if d.coat then [e] else [];
    assert [z] + [s, i] + coat == [z, s, i] + coat;
  }

  lemma CasualComposes(t: seq<Item>, d: Draw)
    requires CasualShape(t)
    ensures GenerateOutfit(t, Everything, d) == Ok(Some([t[0], t[1], t[2]] + if d.coat then [t[3]] else []))
  {
    CasualCounts(t, 1);
    CasualSameStyle(t, d);
    SameStyleAgreesWithGenerateOutfit(t, t[0].estilo, d);
  }

  lemma CasualMax(t: seq<Item>)
    requires CasualShape(t)
    ensures CalculateMaxOutfits(t) == 1
  {
    CasualCounts(t, Superior);
    CasualCounts(t, Inferior);
    CasualCounts(t, Zapatos);
    CasualCounts(t, Exterior);
    CasualCounts(t, Monopieza);
    assert CountCat(t, Zapatos) == 1 && CountCat(t, Monopieza) == 0 && CountCat(t, Exterior) == 1;
    assert CountCat(t, Superior) == 1 && CountCat(t, Inferior) == 1;
  }

  /** With a single outerwear item `maxUnicos` counts one outfit, but the
      coat coin gives two outfits, with different keys. */
  lemma OuterwearDoublesOutfits(t: seq<Item>, d1: Draw, d2: Draw)
    requires CasualShape(t) && !d1.coat && d2.coat
    ensures CalculateMaxOutfits(t) == 1
    ensures GenerateOutfit(t, Everything, d1) == Ok(Some([t[0], t[1], t[2]]))
    ensures GenerateOutfit(t, Everything, d2) == Ok(Some([t[0], t[1], t[2], t[3]]))
    ensures Key([t[0], t[1], t[2]]) != Key([t[0], t[1], t[2], t[3]])
  {
    CasualMax(t);
    CasualComposes(t, d1);
    CasualComposes(t, d2);
    assert [t[0], t[1], t[2]] + [] == [t[0], t[1], t[2]];
    assert [t[0], t[1], t[2]] + [t[3]] == [t[0], t[1], t[2], t[3]];
    KeyEqualIff([t[0], t[1], t[2]], [t[0], t[1], t[2], t[3]]);
    assert |multiset(Ids([t[0], t[1], t[2]]))| == 3;
  }
}
