/** `StackController.createStack`, the HTTP handler in front of the stack
    service. It checks the style, the number of days and the category flags,
    deletes the user's stacks (a failure there is swallowed), calls the
    service and turns what the service throws into a status and a message.
    The handler of caught errors is a parameter, so that the handler as
    written and the one the API documentation describes can be compared. */
module StackController {
  import opened Basics
  import opened Js
  import opened Garments
  import opened Composer
  import opened Store
  import opened StackDtos
  import StackService
  import Prendas

  /** The reply: `201` with the service's result, an error status with the
      `error` and `solution` fields, or no reply at all when the service
      never returns. */
  datatype Reply = CreatedStack(result: StackService.StackResponse)
                 | Rejected(status: int, error: string, solution: Option<string>)
                 | NoReply

  datatype ControllerRun = ControllerRun(db: Db, reply: Reply)

  /** The fields of the request body the handler reads. `allowRepeats` and
      `styles` are read too, but nothing depends on them. */
  datatype Request = Request(days: JsVal, style: JsVal, categories: CategoriesArg)

  const AllowedStyles: seq<string> := ["Casual", "Formal", "Deportivo", "Semiformal"]

  const StyleMustBeText := "El estilo debe ser una cadena de texto"
  const StyleExamples := "Ejemplos válidos: \"Casual\", \"Formal\", etc."
  const StyleNotAllowed := "Estilo no permitido: "
  const DaysOutOfRange := "Días debe ser entre 1 y 30"
  const EmptyStyle := "El estilo no puede estar vacío"
  const ShoesRequired := "Debes seleccionar al menos zapatos"
  const ShoesMandatory := "Los zapatos son obligatorios para generar outfits"
  const InvalidCombination := "Combinación inválida de categorías"
  const CombinationHint := "Selecciona: Superior+Inferior O Monopieza (no ambos)"
  const CreateFailed := "Error al crear el stack"

  /** The `TypeError` raised by destructuring a `null` categories value. */
  const NullDestructure := "Cannot destructure " + "property 'superior' of " + "'categories' as it is null."

  /** The categories a request without any gets. */
  const DefaultCategories := Flags(Bool(false), Bool(false), Bool(true), Bool(false), Bool(false))

  /** A destructuring default: it replaces `undefined` and nothing else. */
  function OrDefault(v: JsVal, d: JsVal): (r: JsVal)
    ensures v.Undefined? ==> r == d
    ensures !v.Undefined? ==> r == v
  {
    if v.Undefined? then d else v
  }

  /** The flags after `const { superior = false, …, zapatos = true, … } =
      categories`; destructuring `null` throws. */
  function Destructured(c: CategoriesArg): (r: Option<Flags>)
    ensures r.None? <==> c.NullArg?
    ensures c.Absent? ==> r == Some(DefaultCategories)
    ensures c.Given? ==> r == Some(Flags(OrDefault(c.flags.superior, Bool(false)), OrDefault(c.flags.inferior, Bool(false)),
                                         OrDefault(c.flags.zapatos, Bool(true)), OrDefault(c.flags.exterior, Bool(false)),
                                         OrDefault(c.flags.monopieza, Bool(false))))
  {
    match c
    case Absent => Some(DefaultCategories)
    case NullArg => None
    case Primitive(_) => Some(WithDefaults(NoFlags))
    case Given(f) => Some(WithDefaults(f))
  }

  function WithDefaults(f: Flags): Flags {
    Flags(OrDefault(f.superior, Bool(false)), OrDefault(f.inferior, Bool(false)), OrDefault(f.zapatos, Bool(true)),
          OrDefault(f.exterior, Bool(false)), OrDefault(f.monopieza, Bool(false)))
  }

  /** The first style check: a present style must be one of the four
      allowed strings, exactly as written. */
  function StyleRejection(style: JsVal): (r: Option<Reply>)
    ensures r.None? <==> !Truthy(style) || (style.Str? && style.s in AllowedStyles)
    ensures r.Some? ==> r.value.Rejected? && r.value.status == 400
    ensures r.Some? && style.Str? ==> r.value.error == StyleNotAllowed + style.s
  {
    if !Truthy(style) then None
    else if !style.Str? then Some(Rejected(400, StyleMustBeText, Some(StyleExamples)))
    else if style.s !in AllowedStyles then Some(Rejected(400, StyleNotAllowed + style.s, None))
    else None
  }

  /** `parseInt(days, 10)` is a number from 1 to 30. */
  predicate DaysInRange(n: Option<int>) {
    n.Some? && 0 < n.value <= 30
  }

  /** `isValidCombination`, as the three disjuncts of the handler. */
  function ValidCombination(f: Flags): (r: bool)
    ensures r <==> (Truthy(f.superior) && Truthy(f.inferior)) || Truthy(f.monopieza)
  {
    var topAndBottom := Truthy(f.superior) && Truthy(f.inferior);
    var onePiece := Truthy(f.monopieza);
    (topAndBottom && !onePiece) || (onePiece && !topAndBottom) || (topAndBottom && onePiece)
  }

  /** `processedStyle`: the trimmed style, or `null` without one. */
  function ProcessedStyle(style: JsVal): (r: JsVal)
    ensures Truthy(style) && style.Str? ==> r.Str? && |r.s| <= |style.s| && r == Str(Trim(style.s))
    ensures !Truthy(style) ==> r == Null
  {
    if Truthy(style) && style.Str? then Str(Trim(style.s)) else Null
  }

  /** The handler's catch block as written: a message about too few items
      is answered with 400, anything else with 500. */
  function CatchAsWritten(e: StackService.ServiceError): (r: Reply)
    ensures r.Rejected?
    ensures r.status == 400 <==> Contains(e.message, StackService.NotEnoughItems)
    ensures r.status == 400 ==> r.error == e.message
    ensures r.status != 400 ==> r == Rejected(500, CreateFailed, None)
  {
    if Contains(e.message, StackService.NotEnoughItems) then Rejected(400, e.message, Some(StackService.AddMoreItems))
    else Rejected(500, CreateFailed, None)
  }

  /** The catch block the API documentation describes: an error the service
      gave a status code keeps that status, its message and its hint. */
  function CatchIntended(e: StackService.ServiceError): (r: Reply)
    ensures r.Rejected?
    ensures StackService.HasStatus(e) ==> r == Rejected(e.statusCode.value, e.message, e.solution)
    ensures !StackService.HasStatus(e) ==> r == CatchAsWritten(e)
  {
    if StackService.HasStatus(e) then Rejected(e.statusCode.value, e.message, e.solution)
    else CatchAsWritten(e)
  }

  /** A request the handler passes on to the service: an allowed style or
      none, a number of days from 1 to 30, categories that are not `null`,
      shoes requested, and a top with a bottom or a one-piece. */
  predicate Admissible(req: Request) {
    && StyleAllowed(req.style)
    && DaysInRange(ParseInt(req.days))
    && Destructured(req.categories).Some?
    && Truthy(Destructured(req.categories).value.zapatos)
    && ValidCombination(Destructured(req.categories).value)
  }

  /** No style, or one of the four allowed ones. */
  predicate StyleAllowed(style: JsVal) {
    !Truthy(style) || style in {Str("Casual"), Str("Formal"), Str("Deportivo"), Str("Semiformal")}
  }

  /** The first style check lets through exactly the allowed styles. */
  lemma StyleCheckAllows(style: JsVal)
    ensures StyleRejection(style).None? <==> StyleAllowed(style)
  {
  }

  lemma AllowedLetters(s: string)
    requires s in AllowedStyles
    ensures Letters(s) && s != ""
  {
  }

  /** No allowed style contains a `y`, so no style the handler lets through
      can put the shortage phrase `No hay suficientes prendas` into the
      empty-inventory message; `EmptyInventoryAnswered500` rests on it. */
  lemma AllowedLackY(s: string)
    requires s in AllowedStyles
    ensures 'y' !in s
  {
  }

  /** The stack handler's styles are the item whitelist without `Moderno`:
      an item may be registered in a style no stack can be requested in. */
  lemma ModernoOnlyForItems()
    ensures "Moderno" in Prendas.EstilosValidos && "Moderno" !in AllowedStyles
    ensures forall s :: s in AllowedStyles ==> s in Prendas.EstilosValidos
    ensures forall s :: s in Prendas.EstilosValidos <==> s in AllowedStyles || s == "Moderno"
  {
  }

  /** A style that passed the first check is left as it is by `trim`, so
      the "empty style" reply is never given. */
  lemma CheckedStyleUntrimmed(style: JsVal)
    requires StyleRejection(style).None? && Truthy(style)
    ensures ProcessedStyle(style) == style && style != Str("")
  {
    AllowedLetters(style.s);
    LettersTrimmed(style.s);
  }

  /** What the checks before the service decide: a reply, an exception for
      the catch block, or the arguments the service is called with. */
  datatype Verdict = Reject(reply: Reply)
                   | Throw(error: StackService.ServiceError)
                   | Pass(days: int, style: JsVal, flags: Flags)

  /** The checks in the handler's order: the style, the days, the style
      again (trimmed), then the destructuring of the categories, the shoes
      and the combination. */
  function Validate(req: Request): (v: Verdict)
    ensures v.Pass? <==> Admissible(req)
    ensures v.Pass? ==> v == Pass(ParseInt(req.days).value, ProcessedStyle(req.style), Destructured(req.categories).value)
    ensures v.Throw? <==> StyleRejection(req.style).None? && DaysInRange(ParseInt(req.days)) && req.categories.NullArg?
    ensures v.Throw? ==> v.error == StackService.Plain(NullDestructure)
    ensures v.Reject? ==> v.reply.Rejected? && v.reply.status == 400
  {
    StyleCheckAllows(req.style);
    if StyleRejection(req.style).Some? then Reject(StyleRejection(req.style).value)
    else
      var numDays := ParseInt(req.days);
      if !DaysInRange(numDays) then Reject(Rejected(400, DaysOutOfRange, None))
      else if Truthy(req.style) && !req.style.Str? then Reject(Rejected(400, StyleMustBeText, None))
      else
        var processed := ProcessedStyle(req.style);
        assert Truthy(req.style) ==> processed == req.style && processed != Str("") by {
          if Truthy(req.style) {
            CheckedStyleUntrimmed(req.style);
          }
        }
        if processed == Str("") then Reject(Rejected(400, EmptyStyle, None))
        else
          match Destructured(req.categories)
          case None => Throw(StackService.Plain(NullDestructure))
          case Some(f) =>
            if !Truthy(f.zapatos) then Reject(Rejected(400, ShoesRequired, Some(ShoesMandatory)))
            else if !ValidCombination(f) then Reject(Rejected(400, InvalidCombination, Some(CombinationHint)))
            else Pass(numDays.value, processed, f)
  }

  /** The reply to what the service did: `201` with its result, the catch
      block's reply to its error, or nothing while it never returns. */
  function Forward(catchBlock: StackService.ServiceError -> Reply, run: StackService.ServiceRun): (r: ControllerRun)
    ensures r.db == run.db
    ensures r.reply.CreatedStack? && run.outcome.Answered? ==> r.reply.result == run.outcome.response
    ensures run.outcome.Answered? ==> r.reply.CreatedStack?
    ensures run.outcome.Failed? ==> r.reply == catchBlock(run.outcome.error)
    ensures run.outcome.Hangs? ==> r.reply == NoReply
  {
    match run.outcome
    case Answered(resp) => ControllerRun(run.db, CreatedStack(resp))
    case Failed(e) => ControllerRun(run.db, catchBlock(e))
    case Hangs => ControllerRun(run.db, NoReply)
  }

  /** The store the service starts from: the user's stacks deleted, or the
      store as it was when that deletion threw. */
  function Cleared(db: Db, userId: int, deleteFails: bool): Db {
    if deleteFails then db else DeleteUserStacks(db, userId).0
  }

  /** `createStack` with the given catch block. `deleteFails` says whether
      the preliminary `deleteUserStacks` throws; `today` is the clock and
      `draws` the random choices, both handed to the service. */
  function CreateStackWith(catchBlock: StackService.ServiceError -> Reply, db: Db, table: seq<Item>,
                           userId: int, req: Request, deleteFails: bool, today: int,
                           draws: seq<Draw>): (r: ControllerRun)
    ensures !Admissible(req) ==> r.db == db
  {
    match Validate(req)
    case Reject(reply) => ControllerRun(db, reply)
    case Throw(e) => ControllerRun(db, catchBlock(e))
    case Pass(n, style, f) =>
      Forward(catchBlock, StackService.CreateStack(Cleared(db, userId, deleteFails), table, userId, n, style,
                                                   Given(f), today, draws))
  }

  /** The handler as written. */
  function CreateStack(db: Db, table: seq<Item>, userId: int, req: Request, deleteFails: bool,
                       today: int, draws: seq<Draw>): ControllerRun
  {
    CreateStackWith(CatchAsWritten, db, table, userId, req, deleteFails, today, draws)
  }

  // ---------------------------------------------------------------- properties

  /** A request that is not admissible is answered without touching the
      store: with status 400, except that `null` categories end in the
      catch block with the `TypeError`. */
  lemma InadmissibleRejected(catchBlock: StackService.ServiceError -> Reply, db: Db, table: seq<Item>,
                             userId: int, req: Request, deleteFails: bool, today: int, draws: seq<Draw>)
    requires !Admissible(req)
    ensures var r := CreateStackWith(catchBlock, db, table, userId, req, deleteFails, today, draws);
      && r.db == db
      && (req.categories.NullArg? && StyleRejection(req.style).None? && DaysInRange(ParseInt(req.days)) ==>
            r.reply == catchBlock(StackService.Plain(NullDestructure)))
      && (!req.categories.NullArg? || StyleRejection(req.style).Some? || !DaysInRange(ParseInt(req.days)) ==>
            r.reply.Rejected? && r.reply.status == 400)
  {
  }

  /** Which check rejects a request: the style first, then the days, then
      the shoes, then the combination. */
  lemma RejectionOrder(req: Request)
    ensures StyleRejection(req.style).Some? ==> Validate(req) == Reject(StyleRejection(req.style).value)
    ensures StyleRejection(req.style).None? && !DaysInRange(ParseInt(req.days)) ==>
              Validate(req) == Reject(Rejected(400, DaysOutOfRange, None))
    ensures StyleRejection(req.style).None? && DaysInRange(ParseInt(req.days)) && !req.categories.NullArg? ==>
              var f := Destructured(req.categories).value;
              && (!Truthy(f.zapatos) ==> Validate(req) == Reject(Rejected(400, ShoesRequired, Some(ShoesMandatory))))
              && (Truthy(f.zapatos) && !ValidCombination(f) ==>
                    Validate(req) == Reject(Rejected(400, InvalidCombination, Some(CombinationHint))))
  {
    if StyleRejection(req.style).None? && Truthy(req.style) {
      CheckedStyleUntrimmed(req.style);
    }
  }

  /** Without categories, or with `{}`, no request passes: shoes are
      requested by default but neither a top with a bottom nor a one-piece
      is. */
  lemma DefaultCategoriesRejected(db: Db, table: seq<Item>, userId: int, days: JsVal, style: JsVal,
                                  deleteFails: bool, today: int, draws: seq<Draw>)
    requires StyleRejection(style).None? && DaysInRange(ParseInt(days))
    ensures CreateStack(db, table, userId, Request(days, style, Absent), deleteFails, today, draws)
              == ControllerRun(db, Rejected(400, InvalidCombination, Some(CombinationHint)))
    ensures CreateStack(db, table, userId, Request(days, style, Given(NoFlags)), deleteFails, today, draws)
              == ControllerRun(db, Rejected(400, InvalidCombination, Some(CombinationHint)))
  {
    RejectionOrder(Request(days, style, Absent));
    RejectionOrder(Request(days, style, Given(NoFlags)));
  }

  /** `null` categories are a server error: the `TypeError` does not
      mention too few items. */
  lemma NullCategoriesServerError(db: Db, table: seq<Item>, userId: int, days: JsVal, style: JsVal,
                                  deleteFails: bool, today: int, draws: seq<Draw>)
    requires StyleRejection(style).None? && DaysInRange(ParseInt(days))
    ensures CreateStack(db, table, userId, Request(days, style, NullArg), deleteFails, today, draws)
              == ControllerRun(db, Rejected(500, CreateFailed, None))
  {
    assert Validate(Request(days, style, NullArg)) == Throw(StackService.Plain(NullDestructure));
    NullDestructureCaught();
  }

  /** The catch block answers the destructuring `TypeError` with 500. */
  lemma NullDestructureCaught()
    ensures CatchAsWritten(StackService.Plain(NullDestructure)) == Rejected(500, CreateFailed, None)
  {
    assert 'h' !in NullDestructure;
    assert StackService.NotEnoughItems[3] == 'h';
    MissingCharNotContained(NullDestructure, StackService.NotEnoughItems, 'h');
  }

  /** The service's own argument checks cannot fail behind the handler,
      except for a missing user id: the days are positive, the style is a
      string or `null`, the categories an object. */
  lemma ServiceInputsAccepted(req: Request, userId: int)
    requires Admissible(req) && userId != 0
    ensures var v := Validate(req);
      && StackService.InputsAccepted(userId, v.days, v.style, Given(v.flags))
      && StackService.StyleArg(v.style) == (if Truthy(req.style) then Some(req.style.s) else None)
  {
    if Truthy(req.style) {
      CheckedStyleUntrimmed(req.style);
    }
  }

  /** The categories the service generates with keep shoes and a complete
      body: the handler only lets through what the generator can dress. */
  lemma PassedCategoriesDress(req: Request)
    requires Admissible(req)
    ensures var p := Normalise(ReadFlags(Given(Validate(req).flags)).value);
      p.zapatos && ((p.superior && p.inferior) || p.monopieza)
  {
  }

  /** The service gives the same answer whether or not the user's stacks
      were deleted beforehand: it deletes them itself first. */
  lemma ServiceIgnoresPreDeletion(db: Db, table: seq<Item>, userId: int, n: int, style: JsVal, f: Flags,
                                  today: int, draws: seq<Draw>)
    requires StackService.InputsAccepted(userId, n, style, Given(f))
    ensures StackService.CreateStack(DeleteUserStacks(db, userId).0, table, userId, n, style, Given(f), today, draws)
              == StackService.CreateStack(db, table, userId, n, style, Given(f), today, draws)
  {
    var once := DeleteUserStacks(db, userId).0;
    DeleteUserStacksIdempotent(db, userId);
    assert StackService.Prepared(once, userId, n, today) == StackService.Prepared(db, userId, n, today);
  }

  /** Whether the preliminary deletion fails makes no difference to the
      reply, and none to the store once the user id is present. */
  lemma DeleteFailureSwallowed(catchBlock: StackService.ServiceError -> Reply, db: Db, table: seq<Item>,
                               userId: int, req: Request, today: int, draws: seq<Draw>)
    ensures var failed := CreateStackWith(catchBlock, db, table, userId, req, true, today, draws);
      var deleted := CreateStackWith(catchBlock, db, table, userId, req, false, today, draws);
      && failed.reply == deleted.reply
      && (userId != 0 ==> failed == deleted)
  {
    if Admissible(req) {
      var v := Validate(req);
      if userId != 0 {
        ServiceInputsAccepted(req, userId);
        ServiceIgnoresPreDeletion(db, table, userId, v.days, v.style, v.flags, today, draws);
      }
    }
  }

  /** A created stack answers an admissible request: its DTO spans the
      requested days from today, carries the trimmed style (`null` without
      one) and the normalised categories, and it is the user's only
      stack. */
  lemma CreatedAnswersRequest(db: Db, table: seq<Item>, userId: int, req: Request, deleteFails: bool,
                              today: int, draws: seq<Draw>)
    requires Valid(db) && Linked(db)
    requires CreateStack(db, table, userId, req, deleteFails, today, draws).reply.CreatedStack?
    ensures var r := CreateStack(db, table, userId, req, deleteFails, today, draws);
      var stack := r.reply.result.stack;
      && Admissible(req) && userId != 0
      && stack.endDate - stack.startDate + 1 == ParseInt(req.days).value && stack.startDate == today
      && stack.style == (if Truthy(req.style) then req.style else Null)
      && stack.categoriesUsed == Normalise(Destructured(req.categories).value)
      && stack.userId == userId
      && UserStackIds(r.db, userId) == {stack.id}
  {
    DeleteFailureSwallowed(CatchAsWritten, db, table, userId, req, today, draws);
    var v := Validate(req);
    ServiceInputsAccepted(req, userId);
    StackService.AnsweredStack(db, table, userId, v.days, v.style, Given(v.flags), today, draws);
  }

  /** With the catch block as written, the request goes unanswered exactly
      when the service never returns. */
  lemma HangingServiceNoReply(db: Db, table: seq<Item>, userId: int, req: Request, deleteFails: bool,
                              today: int, draws: seq<Draw>)
    requires Admissible(req)
    ensures var v := Validate(req);
      var run := StackService.CreateStack(db, table, userId, v.days, v.style, Given(v.flags), today, draws);
      (CreateStack(db, table, userId, req, deleteFails, today, draws).reply == NoReply <==> run.outcome.Hangs?)
  {
    DeleteFailureSwallowed(CatchAsWritten, db, table, userId, req, today, draws);
  }

  /** The service's run on an empty inventory, whatever the pre-deletion
      did: its error carries status 400 and the hint to add items. */
  lemma EmptyInventoryServiceError(db: Db, table: seq<Item>, userId: int, req: Request, deleteFails: bool,
                                   today: int, draws: seq<Draw>)
    requires Admissible(req) && userId != 0
    requires |Fetch(table, userId, if Truthy(req.style) then Some(req.style.s) else None)| == 0
    ensures var v := Validate(req);
      var run := StackService.CreateStack(Cleared(db, userId, deleteFails), table, userId, v.days, v.style,
                                          Given(v.flags), today, draws);
      var style := if Truthy(req.style) then Some(req.style.s) else None;
      && run.outcome == StackService.Failed(StackService.ServiceError(StackService.EmptyInventoryMessage(style),
                                                                      Some(400), Some(StackService.AddStyledItems)))
      && CreateStackWith(CatchIntended, db, table, userId, req, deleteFails, today, draws).reply
         == CatchIntended(run.outcome.error)
      && CreateStackWith(CatchAsWritten, db, table, userId, req, deleteFails, today, draws).reply
         == CatchAsWritten(run.outcome.error)
  {
    ServiceInputsAccepted(req, userId);
  }

  /** An empty inventory: the service gives its error status 400 and a
      hint, but the handler as written looks only at the message, which
      does not mention too few items, and answers 500. */
  lemma EmptyInventoryAnswered500(db: Db, table: seq<Item>, userId: int, req: Request, deleteFails: bool,
                                  today: int, draws: seq<Draw>)
    requires Admissible(req) && userId != 0
    requires |Fetch(table, userId, if Truthy(req.style) then Some(req.style.s) else None)| == 0
    ensures CreateStack(db, table, userId, req, deleteFails, today, draws).reply == Rejected(500, CreateFailed, None)
  {
    EmptyInventoryServiceError(db, table, userId, req, deleteFails, today, draws);
    var style := if Truthy(req.style) then Some(req.style.s) else None;
    if style.Some? {
      StyleCheckAllows(req.style);
      AllowedLackY(style.value);
    }
    StackService.EmptyInventoryNotShortage(style);
  }

  /** With the catch block the API documentation describes, the same
      request is answered 400 with the service's message and hint. */
  lemma EmptyInventoryAnswered400(db: Db, table: seq<Item>, userId: int, req: Request, deleteFails: bool,
                                  today: int, draws: seq<Draw>)
    requires Admissible(req) && userId != 0
    requires |Fetch(table, userId, if Truthy(req.style) then Some(req.style.s) else None)| == 0
    ensures CreateStackWith(CatchIntended, db, table, userId, req, deleteFails, today, draws).reply
              == Rejected(400, StackService.EmptyInventoryMessage(if Truthy(req.style) then Some(req.style.s) else None),
                          Some(StackService.AddStyledItems))
  {
    EmptyInventoryServiceError(db, table, userId, req, deleteFails, today, draws);
  }
}
