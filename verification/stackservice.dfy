/** `StackService.createStack`: input checks, category normalisation, then
    in order the deletion of the user's stacks, the insertion of the new
    stack, the inventory check and the generator, and finally the mapping
    of caught errors. The clock (`new Date()`) is the parameter `today`. */
module StackService {
  import opened Basics
  import opened Js
  import opened Days
  import opened Garments
  import opened Composer
  import opened Availability
  import opened Store
  import opened Generator
  import opened StackDtos

  /** An error leaving the service: its message, its `statusCode` and the
      `solution` hint. */
  datatype ServiceError = ServiceError(message: string, statusCode: Option<int>, solution: Option<string>)

  function Plain(message: string): ServiceError {
    ServiceError(message, None, None)
  }

  /** The `statusCode` property is truthy. */
  predicate HasStatus(e: ServiceError) {
    e.statusCode.Some? && e.statusCode.value != 0
  }

  const MissingParameters := "Parámetros requeridos faltantes"
  const StyleNotText := "El parámetro style debe ser una cadena de texto"
  const InvalidCategories := "Las categorías seleccionadas son inválidas"
  const UnknownGeneratorError := "Error desconocido al generar outfits"
  const NullLabel := "Cannot read properties of null (reading 'toLowerCase')"
  const NotEnoughItems := "No hay suficientes prendas"
  const AddStyledItems := "Agrega prendas con el estilo y categorías requeridas"
  const AddMoreItems := "Agrega más prendas en las categorías requeridas"

  const NoItemsFound := "No se encontraron prendas"
  const InSelectedCategories := " en las categorías seleccionadas"

  /** The message of an empty inventory, naming the style when one is given. */
  function EmptyInventoryMessage(style: Option<string>): (m: string)
    ensures style.Some? ==> m == NoItemsFound + " " + style.value + InSelectedCategories
    ensures style.None? ==> m == NoItemsFound + InSelectedCategories
  {
    match style
    case Some(s) => NoItemsFound + " " + s + InSelectedCategories
    case None => NoItemsFound + InSelectedCategories
  }

  /** The empty-inventory message does not mention too few items (unless
      the style itself spells it out), so it does not get the status the
      catch block gives such messages. */
  lemma EmptyInventoryNotShortage(style: Option<string>)
    requires style.None? || 'y' !in style.value
    ensures !Contains(EmptyInventoryMessage(style), NotEnoughItems)
  {
    assert 'y' !in NoItemsFound && 'y' !in InSelectedCategories;
    assert NotEnoughItems[5] == 'y';
    MissingCharNotContained(EmptyInventoryMessage(style), NotEnoughItems, 'y');
  }

  /** The catch block: an error that has a status code is rethrown with a
      hint; otherwise a message about too few items gets status 400 and a
      hint; anything else is rethrown as it is. */
  function Caught(e: ServiceError): (r: ServiceError)
    ensures r.message == e.message
    ensures HasStatus(e) ==> r == e.(solution := Some(AddStyledItems))
    ensures !HasStatus(e) && Contains(e.message, NotEnoughItems) ==>
              r.statusCode == Some(400) && r.solution == Some(AddMoreItems)
    ensures !HasStatus(e) && !Contains(e.message, NotEnoughItems) ==> r == e
  {
    if HasStatus(e) then e.(solution := Some(AddStyledItems))
    else if Contains(e.message, NotEnoughItems) then e.(statusCode := Some(400), solution := Some(AddMoreItems))
    else e
  }

  /** An outfit of the response: id, Spanish day, date, style and items. */
  datatype OutfitView = OutfitView(id: int, dia: string, fecha: Option<int>, estilo: Option<string>, items: seq<Item>)

  /** One response outfit, its day label translated. */
  function View(s: Saved): OutfitView
    requires s.dia.Some?
  {
    OutfitView(s.row.id, TranslateLabel(s.dia.value), s.row.fecha, s.row.estilo, s.items)
  }

  predicate AllLabelled(saved: seq<Saved>) {
    forall k :: 0 <= k < |saved| ==> saved[k].dia.Some?
  }

  /** The response outfits, in order; a stored outfit without a day label
      makes `toLowerCase` throw. */
  function Views(saved: seq<Saved>): (r: Option<seq<OutfitView>>)
    ensures r.Some? <==> AllLabelled(saved)
    ensures r.Some? ==> |r.value| == |saved| && forall k :: 0 <= k < |saved| ==> r.value[k] == View(saved[k])
  {
    if AllLabelled(saved) then Some(seq(|saved|, k requires 0 <= k < |saved| && AllLabelled(saved) => View(saved[k])))
    else None
  }

  datatype StackResponse = StackResponse(stack: StackDto, outfits: seq<OutfitView>, total: nat,
                                         uniqueCount: nat, maxUniquePossible: nat, containsRepeats: bool,
                                         requestedCount: int, usedCategories: Policy)

  /** The service either answers, throws, or never returns because the
      generator's loop does not reach its target. */
  datatype ServiceOutcome = Answered(response: StackResponse) | Failed(error: ServiceError) | Hangs

  datatype ServiceRun = ServiceRun(db: Db, outcome: ServiceOutcome)

  /** `typeof selectedCategories === 'object'` and not `null`, once the
      default `{}` replaced a missing argument. */
  predicate CategoriesObject(c: CategoriesArg) {
    c.Absent? || c.Given?
  }

  /** The style argument once the checks passed: a non-empty string, or no
      style at all. */
  function StyleArg(style: JsVal): Option<string> {
    if Truthy(style) && style.Str? then Some(style.s) else None
  }

  /** The inputs pass the three checks made before any store change. */
  predicate InputsAccepted(userId: int, days: int, style: JsVal, categories: CategoriesArg) {
    userId != 0 && days != 0 && !(Truthy(style) && !style.Str?) && CategoriesObject(categories)
  }

  /** The user's stacks deleted and the new stack inserted, spanning `days`
      days from today. */
  function Prepared(db: Db, userId: int, days: int, today: int): (r: (Db, StackRow))
    ensures r.1.owner == userId && r.1.start == today && r.1.end == today + days - 1
  {
    var cleared := DeleteUserStacks(db, userId).0;
    StackCreate(cleared, userId, today, today + days - 1)
  }

  /** The generator's run on the prepared store, for the new stack. */
  function Generated(db: Db, table: seq<Item>, userId: int, days: int, style: JsVal,
                     categories: CategoriesArg, today: int, draws: seq<Draw>): GenRun
    requires CategoriesObject(categories)
  {
    var prepared := Prepared(db, userId, days, today);
    GenerateAndGetOutfits(prepared.0, table, userId, prepared.1.id, days, StyleArg(style),
                          Normalise(ReadFlags(categories).value), today, draws)
  }

  /** The service's answer once the generator ran: its failure rethrown
      with its message, or the stack DTO and the translated outfits with
      the generator's counts. */
  function Respond(run: GenRun, stack: StackRow, style: JsVal, policy: Policy): (r: ServiceRun)
    ensures r.db == run.db
    ensures r.outcome.Hangs? <==> run.outcome.Spinning?
    ensures r.outcome.Answered? <==> run.outcome.GenSuccess? && AllLabelled(run.outcome.data.outfits)
    ensures run.outcome.GenFailure? && run.outcome.error != "" ==> r.outcome == Failed(Caught(Plain(run.outcome.error)))
    ensures r.outcome.Answered? ==>
      var data := run.outcome.data;
      var resp := r.outcome.response;
      && resp.stack == StackDto(stack.id, stack.owner, stack.start, stack.end,
                                if style.Undefined? then Null else style, policy)
      && resp.outfits == Views(data.outfits).value
      && resp.total == data.total && resp.uniqueCount == data.uniqueCount
      && resp.maxUniquePossible == data.maxUniquePossible && resp.containsRepeats == data.containsRepeats
      && resp.requestedCount == data.requestedCount && resp.usedCategories == data.usedCategories
  {
    match run.outcome
    case Spinning => ServiceRun(run.db, Hangs)
    case GenFailure(e) =>
      ServiceRun(run.db, Failed(Caught(Plain(if e != "" then e else UnknownGeneratorError))))
    case GenSuccess(data) =>
      match Views(data.outfits)
      case None => ServiceRun(run.db, Failed(Caught(Plain(NullLabel))))
      case Some(views) =>
        NormaliseEncode(policy);
        var dto := NewStackDto(Some(stack), if style.Undefined? then Null else style, Given(Encode(policy)));
        ServiceRun(run.db, Answered(StackResponse(dto.value, views, data.total, data.uniqueCount,
                                                  data.maxUniquePossible, data.containsRepeats,
                                                  data.requestedCount, data.usedCategories)))
  }

  function CreateStack(db: Db, table: seq<Item>, userId: int, days: int, style: JsVal,
                       categories: CategoriesArg, today: int, draws: seq<Draw>): (r: ServiceRun)
    ensures !InputsAccepted(userId, days, style, categories) ==> r.db == db && r.outcome.Failed?
    ensures userId == 0 || days == 0 ==> r.outcome == Failed(Plain(MissingParameters))
    ensures InputsAccepted(userId, days, style, categories) && |Fetch(table, userId, StyleArg(style))| == 0 ==>
      r.outcome == Failed(ServiceError(EmptyInventoryMessage(StyleArg(style)), Some(400), Some(AddStyledItems)))
    ensures InputsAccepted(userId, days, style, categories) && |Fetch(table, userId, StyleArg(style))| > 0 ==>
      r == Respond(Generated(db, table, userId, days, style, categories, today, draws),
                   Prepared(db, userId, days, today).1, style, Normalise(ReadFlags(categories).value))
  {
    if userId == 0 || days == 0 then ServiceRun(db, Failed(Plain(MissingParameters)))
    else if Truthy(style) && !style.Str? then ServiceRun(db, Failed(Plain(StyleNotText)))
    else if !CategoriesObject(categories) then ServiceRun(db, Failed(Plain(InvalidCategories)))
    else
      var prepared := Prepared(db, userId, days, today);
      var styleArg := StyleArg(style);
      if |Fetch(table, userId, styleArg)| == 0 then
        ServiceRun(prepared.0, Failed(Caught(ServiceError(EmptyInventoryMessage(styleArg), Some(400), None))))
      else
        Respond(Generated(db, table, userId, days, style, categories, today, draws),
                prepared.1, style, Normalise(ReadFlags(categories).value))
  }

  // ---------------------------------------------------------------- properties

  /** The three input checks run in order, before any store change. */
  lemma InputChecksFirst(db: Db, table: seq<Item>, userId: int, days: int, style: JsVal,
                         categories: CategoriesArg, today: int, draws: seq<Draw>)
    requires !InputsAccepted(userId, days, style, categories)
    ensures var r := CreateStack(db, table, userId, days, style, categories, today, draws);
      && r.db == db
      && r.outcome == Failed(Plain(if userId == 0 || days == 0 then MissingParameters
                                   else if Truthy(style) && !style.Str? then StyleNotText
                                   else InvalidCategories))
  {
  }

  /** Preparing leaves the user exactly one stack, the new one, and no
      outfit in it. */
  lemma PreparedStore(db: Db, userId: int, days: int, today: int)
    requires Valid(db) && Linked(db)
    ensures var p := Prepared(db, userId, days, today);
      && p.1 == StackRow(db.nextStack, userId, today, today + days - 1)
      && UserStackIds(p.0, userId) == {db.nextStack}
      && StackOutfits(p.0, userId) == {}
      && (forall s :: s in db.stacks && s.owner != userId ==> s in p.0.stacks)
      && Valid(p.0) && p.0.nextOutfit == db.nextOutfit && p.0.nextStack == db.nextStack + 1
  {
    DeleteUserStacksCascade(db, userId);
    CreateOnCleared(DeleteUserStacks(db, userId).0, userId, today, today + days - 1);
  }

  /** Inserting a stack for a user who has none leaves the user that one
      stack, with no outfit in it. */
  lemma CreateOnCleared(cleared: Db, userId: int, start: int, end: int)
    requires Valid(cleared) && Linked(cleared) && forall s :: s in cleared.stacks ==> s.owner != userId
    ensures var p := StackCreate(cleared, userId, start, end);
      && p.1.id == cleared.nextStack
      && UserStackIds(p.0, userId) == {cleared.nextStack}
      && StackOutfits(p.0, userId) == {}
      && Valid(p.0) && p.0.nextOutfit == cleared.nextOutfit && p.0.nextStack == cleared.nextStack + 1
  {
    StackCreateFresh(cleared, userId, start, end);
    var p := StackCreate(cleared, userId, start, end);
    forall i | i in UserStackIds(p.0, userId) ensures i == cleared.nextStack {
      var s :| s in p.0.stacks && s.owner == userId && s.id == i;
      assert s !in cleared.stacks;
    }
    assert p.1 in p.0.stacks;
    forall o | o in p.0.outfits && o.stack.Some? ensures o.stack.value != cleared.nextStack {
      var s :| s in cleared.stacks && s.id == o.stack.value;
    }
  }

  /** An empty inventory is reported with status 400 only after the user's
      stacks were deleted and the new stack inserted: the user is left with
      one empty stack. */
  lemma EmptyInventoryLeavesEmptyStack(db: Db, table: seq<Item>, userId: int, days: int, style: JsVal,
                                       categories: CategoriesArg, today: int, draws: seq<Draw>)
    requires Valid(db) && Linked(db)
    requires InputsAccepted(userId, days, style, categories)
    requires |Fetch(table, userId, StyleArg(style))| == 0
    ensures var r := CreateStack(db, table, userId, days, style, categories, today, draws);
      && r.outcome == Failed(ServiceError(EmptyInventoryMessage(StyleArg(style)), Some(400), Some(AddStyledItems)))
      && UserStackIds(r.db, userId) == {db.nextStack}
      && StackRow(db.nextStack, userId, today, today + days - 1) in r.db.stacks
      && StackOutfits(r.db, userId) == {}
  {
    PreparedStore(db, userId, days, today);
  }

  /** The messages the generator can fail with. */
  predicate GeneratorMessage(e: string) {
    e in {NoItemsForStyles, NoItemsAvailable, NoItemsInCategories, NoCompatibleItems, NoValidOutfits}
  }

  lemma GeneratorFailsWithItsMessages(db: Db, table: seq<Item>, user: int, stackId: int, count: int,
                                      style: Option<string>, p: Policy, start: int, draws: seq<Draw>)
    requires GenerateAndGetOutfits(db, table, user, stackId, count, style, p, start, draws).outcome.GenFailure?
    ensures GeneratorMessage(GenerateAndGetOutfits(db, table, user, stackId, count, style, p, start, draws).outcome.error)
  {
  }

  /** A generator failure becomes an error carrying the generator's own
      message; it gets status 400 exactly when that message mentions too
      few items. */
  lemma GeneratorFailurePassesMessage(db: Db, table: seq<Item>, userId: int, days: int, style: JsVal,
                                      categories: CategoriesArg, today: int, draws: seq<Draw>)
    requires InputsAccepted(userId, days, style, categories)
    requires |Fetch(table, userId, StyleArg(style))| > 0
    requires Generated(db, table, userId, days, style, categories, today, draws).outcome.GenFailure?
    ensures var run := Generated(db, table, userId, days, style, categories, today, draws);
      var r := CreateStack(db, table, userId, days, style, categories, today, draws);
      && GeneratorMessage(run.outcome.error)
      && r.outcome.Failed? && r.outcome.error.message == run.outcome.error && r.db == run.db
      && (r.outcome.error.statusCode == Some(400) <==> Contains(run.outcome.error, NotEnoughItems))
  {
    var prepared := Prepared(db, userId, days, today);
    GeneratorFailsWithItsMessages(prepared.0, table, userId, prepared.1.id, days, StyleArg(style),
                                  Normalise(ReadFlags(categories).value), today, draws);
  }

  /** An answered request returns the DTO of the new stack, spanning
      `days` days from today, with the normalised categories, and leaves
      the new stack as the user's only one. */
  lemma AnsweredStack(db: Db, table: seq<Item>, userId: int, days: int, style: JsVal,
                      categories: CategoriesArg, today: int, draws: seq<Draw>)
    requires Valid(db) && Linked(db)
    requires CreateStack(db, table, userId, days, style, categories, today, draws).outcome.Answered?
    ensures var r := CreateStack(db, table, userId, days, style, categories, today, draws);
      var resp := r.outcome.response;
      && InputsAccepted(userId, days, style, categories)
      && resp.stack == StackDto(db.nextStack, userId, today, today + days - 1,
                                if style.Undefined? then Null else style, Normalise(ReadFlags(categories).value))
      && resp.usedCategories == resp.stack.categoriesUsed
      && UserStackIds(r.db, userId) == {db.nextStack}
  {
    assert InputsAccepted(userId, days, style, categories) && |Fetch(table, userId, StyleArg(style))| > 0;
    RespondStack(db, userId, days, today, Generated(db, table, userId, days, style, categories, today, draws),
                 style, Normalise(ReadFlags(categories).value));
  }

  /** The answer built for the prepared stack, whatever the generator's
      outfits, carries that stack's DTO and keeps it the user's only one. */
  lemma RespondStack(db: Db, userId: int, days: int, today: int, run: GenRun, style: JsVal, policy: Policy)
    requires Valid(db) && Linked(db)
    requires run.db.stacks == Prepared(db, userId, days, today).0.stacks
    requires run.outcome.GenSuccess? ==> run.outcome.data.usedCategories == policy
    requires Respond(run, Prepared(db, userId, days, today).1, style, policy).outcome.Answered?
    ensures var r := Respond(run, Prepared(db, userId, days, today).1, style, policy);
      && r.outcome.response.stack == StackDto(db.nextStack, userId, today, today + days - 1,
                                              if style.Undefined? then Null else style, policy)
      && r.outcome.response.usedCategories == r.outcome.response.stack.categoriesUsed
      && UserStackIds(r.db, userId) == {db.nextStack}
  {
    PreparedStore(db, userId, days, today);
  }

  /** An answered request carries as many outfits as the generator's
      target, at least one and at most `days`, none repeated; the k-th is
      labelled with the Spanish weekday `k + 1` days after the start and
      dated on it (modulo a week). */
  lemma AnsweredOutfits(db: Db, table: seq<Item>, userId: int, days: int, style: JsVal,
                        categories: CategoriesArg, today: int, draws: seq<Draw>)
    requires CreateStack(db, table, userId, days, style, categories, today, draws).outcome.Answered?
    ensures var resp := CreateStack(db, table, userId, days, style, categories, today, draws).outcome.response;
      && |resp.outfits| == resp.total == resp.uniqueCount == Goal(days, resp.maxUniquePossible)
      && 1 <= |resp.outfits| <= days && !resp.containsRepeats
      && forall k :: 0 <= k < |resp.outfits| ==>
           resp.outfits[k].dia == DiasSemana[(Weekday(today) + k + 1) % 7]
           && resp.outfits[k].fecha == Some(today + (k + 1) % 7)
  {
    var resp := CreateStack(db, table, userId, days, style, categories, today, draws).outcome.response;
    var prepared := Prepared(db, userId, days, today);
    var styleArg := StyleArg(style);
    var policy := Normalise(ReadFlags(categories).value);
    var run := Generated(db, table, userId, days, style, categories, today, draws);
    var items := Inventory(table, userId, styleArg, policy);
    GenerateFailures(prepared.0, table, userId, prepared.1.id, days, styleArg, policy, today, draws);
    MaxOutfitsPositiveWhenGenerable(items);
    forall k | 0 <= k < |resp.outfits|
      ensures resp.outfits[k].dia == DiasSemana[(Weekday(today) + k + 1) % 7]
      ensures resp.outfits[k].fecha == Some(today + (k + 1) % 7)
    {
      GeneratedOutfit(prepared.0, table, userId, prepared.1.id, days, styleArg, policy, today, draws, k);
    }
  }
}
