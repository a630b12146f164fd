/** The rows the outfit and stack models write, as an abstract store of
    three tables, and the transitions of `Outfit.create`,
    `Outfit.createUnique`, `Outfit.addPrendaToOutfit`, `Stack.create` and
    `deleteUserStacks`. Serial ids come from per-table counters. Dates are
    integer day numbers. */
module Store {
  import opened Basics
  import opened Js
  import opened Days

  datatype StackRow = StackRow(id: int, owner: int, start: int, end: int)

  /** An outfit row: id, owner, style, stack (absent for a stack-less
      outfit) and assigned date. */
  datatype OutfitRow = OutfitRow(id: int, owner: int, estilo: Option<string>, stack: Option<int>, fecha: Option<int>)

  /** An `outfit_prenda` row. */
  datatype Link = Link(outfit: int, prenda: int)

  datatype Db = Db(stacks: set<StackRow>, outfits: set<OutfitRow>, links: set<Link>,
                   nextStack: int, nextOutfit: int)

  /** Ids are unique within a table and below the next serial value. */
  ghost predicate Valid(db: Db) {
    && (forall s, t :: s in db.stacks && t in db.stacks && s.id == t.id ==> s == t)
    && (forall o, q :: o in db.outfits && q in db.outfits && o.id == q.id ==> o == q)
    && (forall s :: s in db.stacks ==> s.id < db.nextStack)
    && (forall o :: o in db.outfits ==> o.id < db.nextOutfit)
  }

  /** Every link names an existing outfit and every outfit's stack exists:
      the foreign keys of the schema. */
  ghost predicate Linked(db: Db) {
    && (forall l :: l in db.links ==> exists o :: o in db.outfits && o.id == l.outfit)
    && (forall o :: o in db.outfits && o.stack.Some? ==> exists s :: s in db.stacks && s.id == o.stack.value)
  }

  /** The user's stack-less outfits. */
  function Stackless(db: Db, user: int): (r: set<OutfitRow>)
    ensures forall o :: o in r <==> o in db.outfits && o.owner == user && o.stack.None?
  {
    set o | o in db.outfits && o.owner == user && o.stack.None?
  }

  /** The ids of a set of outfits. */
  function OutfitIds(os: set<OutfitRow>): (r: set<int>)
    ensures forall i :: i in r <==> exists o :: o in os && o.id == i
  {
    set o | o in os :: o.id
  }

  // ---------------------------------------------------------------- Outfit.create

  /** The first position at or after `i` of `dia` in the Spanish weekday
      list. */
  function IndexFrom(dia: string, i: nat): (r: Option<nat>)
    requires i <= 7
    ensures r.Some? ==> i <= r.value < 7 && DiasSemana[r.value] == dia
    ensures r.None? ==> forall j :: i <= j < 7 ==> DiasSemana[j] != dia
    decreases 7 - i
  {
    if i == 7 then None else if dia == DiasSemana[i] then Some(i) else IndexFrom(dia, i + 1)
  }

  /** The position of `dia` in the Spanish weekday list (`indexOf`), or
      nothing. */
  function DayIndex(dia: string): (r: Option<nat>)
    ensures r.Some? ==> r.value < 7 && DiasSemana[r.value] == dia
    ensures r.None? ==> dia !in DiasSemana
  {
    IndexFrom(dia, 0)
  }

  /** Each Spanish weekday name is found at its own position. */
  lemma DayIndexOf(i: nat)
    requires i < 7
    ensures DayIndex(DiasSemana[i]) == Some(i)
  {
    SpanishNamesDistinct();
  }

  /** `diffDias`: days from the start to the next occurrence of weekday
      `diaIndex`, the start itself included. */
  function DiffDias(diaIndex: nat, start: int): (d: nat)
    requires diaIndex < 7
    ensures d <= 6
    ensures Weekday(start + d) == diaIndex
  {
    (diaIndex - Weekday(start) + 7) % 7
  }

  /** The assigned date: only for a non-empty Spanish day name together
      with a start date. */
  function FechaAsignada(dia: Option<string>, start: Option<int>): (r: Option<int>)
    ensures r.Some? <==> dia.Some? && dia.value in DiasSemana && start.Some?
    ensures r.Some? ==> start.value <= r.value <= start.value + 6 && DiasSemana[Weekday(r.value)] == dia.value
  {
    if dia.Some? && dia.value != "" && start.Some? then
      match DayIndex(dia.value)
      case Some(i) => Some(start.value + DiffDias(i, start.value))
      case None => None
    else None
  }

  const EstiloNotString := "El estilo debe ser un string"
  const StackIdNotNumber := "stackId debe ser un número"

  /** The outcome of `Outfit.create`: the new store and the inserted row. */
  datatype Created = Created(db: Db, row: OutfitRow)

  /** `Outfit.create`: both argument checks run before the store is touched;
      a falsy stack id first removes the user's stack-less outfits and their
      links; then one row is inserted. */
  function OutfitCreate(db: Db, user: int, estilo: JsVal, stackId: JsVal,
                        dia: Option<string>, start: Option<int>): (r: Result<Created, string>)
    ensures r.Err? <==> !estilo.Str? || (Truthy(stackId) && ParseIntAuto(stackId).None?)
    ensures r.Err? ==> r.error == if !estilo.Str? then EstiloNotString else StackIdNotNumber
    ensures r.Ok? ==> r.value.row.estilo == Some(estilo.s) && r.value.row.owner == user
                      && r.value.row.fecha == FechaAsignada(dia, start)
                      && r.value.row.id == db.nextOutfit && r.value.db.nextOutfit == db.nextOutfit + 1
                      && r.value.row in r.value.db.outfits
                      && r.value.db.stacks == db.stacks && r.value.db.nextStack == db.nextStack
  {
    if !estilo.Str? then Err(EstiloNotString)
    else if Truthy(stackId) && ParseIntAuto(stackId).None? then Err(StackIdNotNumber)
    else
      var cleared :=
        if !Truthy(stackId) then
          var gone := Stackless(db, user);
          db.(links := (set l | l in db.links && l.outfit !in OutfitIds(gone)),
              outfits := db.outfits - gone)
        else db;
      var row := OutfitRow(db.nextOutfit, user, Some(estilo.s),
                           if Truthy(stackId) then Some(ParseIntAuto(stackId).value) else None,
                           FechaAsignada(dia, start));
      Ok(Created(cleared.(outfits := cleared.outfits + {row}, nextOutfit := db.nextOutfit + 1), row))
  }

  /** The row a create with a numeric stack id inserts. */
  lemma CreatedRow(db: Db, user: int, estilo: string, stackId: int, dia: Option<string>, start: Option<int>)
    ensures var r := OutfitCreate(db, user, Str(estilo), Num(stackId), dia, start);
      && r.Ok?
      && r.value.row == OutfitRow(db.nextOutfit, user, Some(estilo), if stackId == 0 then None else Some(stackId),
                                  FechaAsignada(dia, start))
  {
  }

  /** A stack-less create removes exactly the user's stack-less outfits and
      their links, leaves every other row alone, and afterwards the user
      owns exactly one stack-less outfit, the new one. */
  lemma StacklessCreateReplaces(db: Db, user: int, estilo: string, stackId: JsVal,
                                dia: Option<string>, start: Option<int>)
    requires Valid(db) && !Truthy(stackId)
    ensures var r := OutfitCreate(db, user, Str(estilo), stackId, dia, start);
      && r.Ok?
      && r.value.db.outfits == (db.outfits - Stackless(db, user)) + {r.value.row}
      && (forall l :: l in r.value.db.links <==> l in db.links && l.outfit !in OutfitIds(Stackless(db, user)))
      && Stackless(r.value.db, user) == {r.value.row}
      && Valid(r.value.db)
  {
    var r := OutfitCreate(db, user, Str(estilo), stackId, dia, start);
    assert r.value.row.stack.None?;
    assert r.value.row !in db.outfits;
  }

  /** A create with a stack id deletes nothing and adds exactly one outfit
      row, which is new. */
  lemma StackCreateAddsOne(db: Db, user: int, estilo: string, stackId: JsVal,
                           dia: Option<string>, start: Option<int>)
    requires Valid(db) && Truthy(stackId) && ParseIntAuto(stackId).Some?
    ensures var r := OutfitCreate(db, user, Str(estilo), stackId, dia, start);
      && r.Ok?
      && r.value.db.outfits == db.outfits + {r.value.row}
      && r.value.row !in db.outfits
      && r.value.row.stack == ParseIntAuto(stackId)
      && r.value.db.links == db.links
      && Valid(r.value.db)
  {
  }

  /** The stack id is read by `parseInt` with no radix: `"0x"` alone is
      refused as not a number, and `"0x1A"` is stack 26. */
  lemma HexStackId(db: Db, user: int, estilo: string, dia: Option<string>, start: Option<int>)
    ensures OutfitCreate(db, user, Str(estilo), Str("0x"), dia, start) == Err(StackIdNotNumber)
    ensures var r := OutfitCreate(db, user, Str(estilo), Str("0x1A"), dia, start);
      r.Ok? && r.value.row.stack == Some(26)
  {
    HexMarkAlone();
    HexMarkedByte();
  }

  /** `Outfit.createUnique`: the user's stack-less outfits are deleted but
      their links are not, and a row with no stack and no date is added. */
  function CreateUnique(db: Db, user: int, estilo: Option<string>): (r: Created)
    ensures r.db.links == db.links
    ensures r.db.outfits == (db.outfits - Stackless(db, user)) + {r.row}
    ensures r.row.stack.None? && r.row.fecha.None? && r.row.owner == user && r.row.estilo == estilo
  {
    var row := OutfitRow(db.nextOutfit, user, estilo, None, None);
    Created(db.(outfits := (db.outfits - Stackless(db, user)) + {row}, nextOutfit := db.nextOutfit + 1), row)
  }

  /** Unlike `create`, `createUnique` can leave links to an outfit it
      removed: the foreign-key invariant does not survive it. */
  lemma CreateUniqueLeavesLinks(db: Db, user: int, estilo: Option<string>, o: OutfitRow, prenda: int)
    requires Valid(db)
    requires o in Stackless(db, user) && Link(o.id, prenda) in db.links
    ensures Link(o.id, prenda) in CreateUnique(db, user, estilo).db.links
    ensures !Linked(CreateUnique(db, user, estilo).db)
  {
    var after := CreateUnique(db, user, estilo).db;
  }

  /** `Outfit.addPrendaToOutfit`. */
  function AddPrendaToOutfit(db: Db, outfit: int, prenda: int): (r: Db)
    ensures r.links == db.links + {Link(outfit, prenda)}
    ensures r.outfits == db.outfits && r.stacks == db.stacks
  {
    db.(links := db.links + {Link(outfit, prenda)})
  }

  // ---------------------------------------------------------------- stacks

  /** `Stack.create`. */
  function StackCreate(db: Db, user: int, start: int, end: int): (r: (Db, StackRow))
    ensures r.0.stacks == db.stacks + {r.1} && r.1.owner == user && r.1.start == start && r.1.end == end
    ensures r.0.outfits == db.outfits && r.0.links == db.links
  {
    var row := StackRow(db.nextStack, user, start, end);
    (db.(stacks := db.stacks + {row}, nextStack := db.nextStack + 1), row)
  }

  /** The inserted stack is new and the store stays valid. */
  lemma StackCreateFresh(db: Db, user: int, start: int, end: int)
    requires Valid(db)
    ensures StackCreate(db, user, start, end).1 !in db.stacks
    ensures Valid(StackCreate(db, user, start, end).0)
  {
  }

  /** The ids of the user's stacks. */
  function UserStackIds(db: Db, user: int): (r: set<int>)
    ensures forall i :: i in r <==> exists s :: s in db.stacks && s.owner == user && s.id == i
  {
    set s | s in db.stacks && s.owner == user :: s.id
  }

  /** The outfits that sit in one of the user's stacks. */
  function StackOutfits(db: Db, user: int): (r: set<OutfitRow>)
    ensures forall o :: o in r <==> o in db.outfits && o.stack.Some? && o.stack.value in UserStackIds(db, user)
  {
    set o | o in db.outfits && o.stack.Some? && o.stack.value in UserStackIds(db, user)
  }

  /** `deleteUserStacks`: the links of outfits in the user's stacks, those
      outfits, then the stacks; the count of deleted stacks is returned. */
  function DeleteUserStacks(db: Db, user: int): (r: (Db, nat))
    ensures forall s :: s in r.0.stacks <==> s in db.stacks && s.owner != user
    ensures forall o :: o in r.0.outfits <==> o in db.outfits && !(o.stack.Some? && o.stack.value in UserStackIds(db, user))
    ensures r.1 == |set s | s in db.stacks && s.owner == user|
  {
    var doomed := StackOutfits(db, user);
    var links := set l | l in db.links && l.outfit !in OutfitIds(doomed);
    var mine := set s | s in db.stacks && s.owner == user;
    (db.(links := links, outfits := db.outfits - doomed, stacks := db.stacks - mine), |mine|)
  }

  /** The cascade leaves stack-less outfits and everything of users whose
      stacks are not involved untouched, and keeps the foreign keys intact. */
  lemma DeleteUserStacksCascade(db: Db, user: int)
    requires Valid(db) && Linked(db)
    ensures var after := DeleteUserStacks(db, user).0;
      && Stackless(after, user) == Stackless(db, user)
      && (forall o :: o in db.outfits && o.stack.Some? && (exists s :: s in db.stacks && s.id == o.stack.value && s.owner != user)
            ==> o in after.outfits)
      && (forall l :: l in after.links <==> l in db.links && (exists o :: o in after.outfits && o.id == l.outfit))
      && Linked(after) && Valid(after)
      && UserStackIds(after, user) == {}
  {
    var after := DeleteUserStacks(db, user).0;
    var doomed := StackOutfits(db, user);
    forall l | l in after.links ensures exists o :: o in after.outfits && o.id == l.outfit {
      var o :| o in db.outfits && o.id == l.outfit;
      assert o !in doomed;
    }
    forall l | l in db.links && (exists o :: o in after.outfits && o.id == l.outfit) ensures l in after.links {
      var o :| o in after.outfits && o.id == l.outfit;
    }
    forall o | o in after.outfits && o.stack.Some? ensures exists s :: s in after.stacks && s.id == o.stack.value {
      var s :| s in db.stacks && s.id == o.stack.value;
      assert s.owner != user;
    }
    forall o | o in db.outfits && o.stack.Some? && (exists s :: s in db.stacks && s.id == o.stack.value && s.owner != user)
      ensures o in after.outfits
    {
      var s :| s in db.stacks && s.id == o.stack.value && s.owner != user;
    }
  }

  /** Deleting a user's stacks twice deletes nothing the second time. */
  lemma DeleteUserStacksIdempotent(db: Db, user: int)
    ensures var once := DeleteUserStacks(db, user).0;
      DeleteUserStacks(once, user) == (once, 0)
  {
    var once := DeleteUserStacks(db, user).0;
    assert UserStackIds(once, user) == {};
    assert StackOutfits(once, user) == {};
    assert OutfitIds({}) == {};
    assert (set s | s in once.stacks && s.owner == user) == {};
    var twice := DeleteUserStacks(once, user).0;
    assert twice.links == once.links;
    assert twice.outfits == once.outfits;
    assert twice.stacks == once.stacks;
  }
}
