/** `OutfitDTO`, the outfit as the API returns it, and `OutfitResponseDTO`,
    which spreads each outfit's items over one slot per category. */
module OutfitDtos {
  import opened Basics
  import opened Garments
  import opened Composer

  // ---------------------------------------------------------------- OutfitDTO

  /** An item row joined with its colour, as the outfit queries return it. */
  datatype PrendaRow = PrendaRow(idPrenda: int, nombrePrenda: string, idCategoria: int, idSubcategoria: int,
                                 idColor: int, colorPrincipal: string, ruta: string, estilo: string)

  datatype ColorRef = ColorRef(id: int, nombre: string)

  /** An item of `OutfitDTO.items`. */
  datatype ItemDto = ItemDto(id: int, name: string, category: int, subcategory: int,
                             colorPrincipal: ColorRef, image: string, style: string)

  /** An outfit row; `prendas` is absent when the query did not attach
      items. */
  datatype OutfitRecord = OutfitRecord(idOutfit: int, idUsuario: int, idStack: Option<int>, favorito: bool,
                                       estilo: Option<string>, fechaAsignada: Option<int>,
                                       prendas: Option<seq<PrendaRow>>)

  datatype OutfitDto = OutfitDto(id: int, userId: int, stackId: Option<int>, favorite: bool,
                                 style: Option<string>, assignedDate: Option<int>, items: seq<ItemDto>)

  /** The renaming of one row. */
  function ItemOf(p: PrendaRow): (d: ItemDto)
    ensures d.id == p.idPrenda && d.category == p.idCategoria && d.style == p.estilo
  {
    ItemDto(p.idPrenda, p.nombrePrenda, p.idCategoria, p.idSubcategoria,
            ColorRef(p.idColor, p.colorPrincipal), p.ruta, p.estilo)
  }

  /** The row an item of the DTO came from. */
  function RowOf(d: ItemDto): PrendaRow {
    PrendaRow(d.id, d.name, d.category, d.subcategory, d.colorPrincipal.id, d.colorPrincipal.nombre, d.image, d.style)
  }

  /** The renaming loses nothing: the row can be read back from the DTO
      item. */
  lemma RowOfItemOf(p: PrendaRow)
    ensures RowOf(ItemOf(p)) == p
  {
  }

  /** `new OutfitDTO(row)`. */
  function NewOutfitDto(o: OutfitRecord): (r: OutfitDto)
    ensures r.id == o.idOutfit && r.userId == o.idUsuario && r.stackId == o.idStack
    ensures r.favorite == o.favorito && r.style == o.estilo && r.assignedDate == o.fechaAsignada
    ensures o.prendas.None? ==> r.items == []
    ensures o.prendas.Some? ==> |r.items| == |o.prendas.value|
    ensures o.prendas.Some? ==> forall k :: 0 <= k < |r.items| ==> RowOf(r.items[k]) == o.prendas.value[k]
  {
    var items := match o.prendas
      case None => []
      case Some(ps) => seq(|ps|, k requires 0 <= k < |ps| => ItemOf(ps[k]));
    OutfitDto(o.idOutfit, o.idUsuario, o.idStack, o.favorito, o.estilo, o.fechaAsignada, items)
  }

  // ---------------------------------------------------------------- OutfitResponseDTO

  /** `items.find(p => p.id_categoria === c)`. */
  function Find(items: seq<Item>, c: int): (r: Option<Item>)
    ensures r.None? <==> forall i :: 0 <= i < |items| ==> items[i].categoria != c
    ensures r.Some? ==> exists i :: 0 <= i < |items| && items[i] == r.value && items[i].categoria == c
                                    && forall j :: 0 <= j < i ==> items[j].categoria != c
    decreases |items|
  {
    if |items| == 0 then None
    else if items[0].categoria == c then Some(items[0])
    else
      var r := Find(items[1..], c);
      assert r.Some? ==> exists i :: 1 <= i < |items| && items[i] == r.value && items[i].categoria == c
                                    && forall j :: 1 <= j < i ==> items[j].categoria != c;
      r
  }

  /** The five slots of one response outfit. */
  datatype Slots = Slots(superior: Option<Item>, inferior: Option<Item>, zapatos: Option<Item>,
                         exterior: Option<Item>, monopieza: Option<Item>)

  /** The slot of category `c`, 1 to 5. */
  function Slot(s: Slots, c: int): Option<Item>
    requires 1 <= c <= 5
  {
    if c == Superior then s.superior
    else if c == Inferior then s.inferior
    else if c == Zapatos then s.zapatos
    else if c == Exterior then s.exterior
    else s.monopieza
  }

  function SlotsOf(items: seq<Item>): (r: Slots)
    ensures forall c :: 1 <= c <= 5 ==> Slot(r, c) == Find(items, c)
  {
    Slots(Find(items, Superior), Find(items, Inferior), Find(items, Zapatos), Find(items, Exterior),
          Find(items, Monopieza))
  }

  /** `new OutfitResponseDTO(outfits, …)`: the outfits, each as slots, and
      the counts as they are. */
  datatype OutfitResponse = OutfitResponse(outfits: seq<Slots>, total: int, uniqueCount: int,
                                           maxUniquePossible: int, containsRepeats: bool, requestedCount: int)

  function NewOutfitResponse(outfits: seq<seq<Item>>, total: int, uniqueCount: int, maxUniquePossible: int,
                             containsRepeats: bool, requestedCount: int): (r: OutfitResponse)
    ensures |r.outfits| == |outfits|
    ensures forall k, c :: 0 <= k < |outfits| && 1 <= c <= 5 ==> Slot(r.outfits[k], c) == Find(outfits[k], c)
    ensures r.total == total && r.uniqueCount == uniqueCount && r.maxUniquePossible == maxUniquePossible
    ensures r.containsRepeats == containsRepeats && r.requestedCount == requestedCount
  {
    OutfitResponse(seq(|outfits|, k requires 0 <= k < |outfits| => SlotsOf(outfits[k])),
                   total, uniqueCount, maxUniquePossible, containsRepeats, requestedCount)
  }

  /** The items held by the slots. */
  predicate InSlots(s: Slots, x: Item) {
    exists c :: 1 <= c <= 5 && Slot(s, c) == Some(x)
  }

  /** Every slotted item comes from the outfit, in its own category's
      slot. */
  lemma SlotsFromOutfit(items: seq<Item>, x: Item)
    requires InSlots(SlotsOf(items), x)
    ensures x in items && 1 <= x.categoria <= 5 && Slot(SlotsOf(items), x.categoria) == Some(x)
  {
  }

  /** Two items of one category push up the count of that category. */
  lemma {:induction false} CountCatPair(o: seq<Item>, c: int, i: int, j: int)
    requires 0 <= i < j < |o| && o[i].categoria == c && o[j].categoria == c
    ensures CountCat(o, c) >= 2
    decreases |o|
  {
    var rest := o[..|o| - 1];
    assert rest[i] == o[i];
    if j < |o| - 1 {
      assert rest[j] == o[j];
      CountCatPair(rest, c, i, j);
    }
  }

  /** No two items of an outfit share a category. */
  predicate OnePerCategory(o: seq<Item>) {
    forall i, j :: 0 <= i < j < |o| ==> o[i].categoria != o[j].categoria
  }

  /** A composed outfit has at most one item per category. */
  lemma WellFormedOnePerCategory(items: seq<Item>, p: Policy, o: seq<Item>)
    requires WellFormed(items, p, o)
    ensures OnePerCategory(o)
  {
    forall i, j | 0 <= i < j < |o| ensures o[i].categoria != o[j].categoria {
      if o[i].categoria == o[j].categoria {
        CountCatPair(o, o[i].categoria, i, j);
      }
    }
  }

  /** Slotting an outfit with at most one item per category, all of
      categories 1 to 5, loses nothing: the slots hold exactly its
      items. */
  lemma SlotsKeepOutfit(o: seq<Item>)
    requires OnePerCategory(o)
    requires forall x :: x in o ==> 1 <= x.categoria <= 5
    ensures forall x :: InSlots(SlotsOf(o), x) <==> x in o
  {
    forall x | x in o ensures InSlots(SlotsOf(o), x) {
      var i :| 0 <= i < |o| && o[i] == x;
      var c := x.categoria;
      var f := Find(o, c);
      var k :| 0 <= k < |o| && o[k] == f.value && o[k].categoria == c
               && forall j :: 0 <= j < k ==> o[j].categoria != c;
      assert k == i;
      assert Slot(SlotsOf(o), c) == Some(x);
    }
  }

  /** So the response shows every item of a composed outfit, each in its
      category's slot. */
  lemma ComposedOutfitSlots(items: seq<Item>, p: Policy, o: seq<Item>)
    requires WellFormed(items, p, o)
    ensures forall x :: InSlots(SlotsOf(o), x) <==> x in o
    ensures forall x :: x in o ==> Slot(SlotsOf(o), x.categoria) == Some(x)
  {
    WellFormedOnePerCategory(items, p, o);
    SlotsKeepOutfit(o);
    forall x | x in o ensures Slot(SlotsOf(o), x.categoria) == Some(x) {
      SlotsFromOutfit(o, x);
    }
  }
}
