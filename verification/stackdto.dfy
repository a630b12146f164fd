/** The category flags of a stack request and the `StackDTO` the stack
    service answers with. */
module StackDtos {
  import opened Basics
  import opened Js
  import opened Composer
  import opened Store

  /** A categories object as received: each flag is whatever value its key
      holds, `Undefined` when the key is missing. */
  datatype Flags = Flags(superior: JsVal, inferior: JsVal, zapatos: JsVal, exterior: JsVal, monopieza: JsVal)

  /** The empty object `{}`. */
  const NoFlags := Flags(Undefined, Undefined, Undefined, Undefined, Undefined)

  /** A categories argument: missing (`undefined`, so a default applies),
      `null`, a primitive (a boolean, number or string, none of which has
      the flag keys), or an object. */
  datatype CategoriesArg = Absent | NullArg | Primitive(v: JsVal) | Given(flags: Flags)

  /** The normalisation shared by `createStack` and `StackDTO`: shoes stay
      requested unless the value is exactly `false`; every other flag is
      the value's truthiness. */
  function Normalise(f: Flags): (p: Policy)
    ensures !p.zapatos <==> f.zapatos == Bool(false)
    ensures p.superior == Truthy(f.superior) && p.inferior == Truthy(f.inferior)
    ensures p.exterior == Truthy(f.exterior) && p.monopieza == Truthy(f.monopieza)
  {
    Policy(Truthy(f.superior), Truthy(f.inferior), f.zapatos != Bool(false),
           Truthy(f.exterior), Truthy(f.monopieza))
  }

  /** The flags of a normalised policy, as booleans. */
  function Encode(p: Policy): (f: Flags)
    ensures f.superior.Bool? && f.inferior.Bool? && f.zapatos.Bool? && f.exterior.Bool? && f.monopieza.Bool?
  {
    Flags(Bool(p.superior), Bool(p.inferior), Bool(p.zapatos), Bool(p.exterior), Bool(p.monopieza))
  }

  /** Boolean flags normalise to themselves. */
  lemma NormaliseEncode(p: Policy)
    ensures Normalise(Encode(p)) == p
  {
  }

  /** Normalisation is idempotent: feeding its result back in gives the
      same flags. */
  lemma NormaliseIdempotent(f: Flags)
    ensures Normalise(Encode(Normalise(f))) == Normalise(f)
  {
    NormaliseEncode(Normalise(f));
  }

  /** A missing key leaves shoes requested and everything else off. */
  lemma NormaliseNoFlags()
    ensures Normalise(NoFlags) == Policy(false, false, true, false, false)
  {
  }

  /** The flags a categories argument yields when its keys are read. `null`
      has none to read: reading one raises a `TypeError`. */
  function ReadFlags(c: CategoriesArg): (r: Option<Flags>)
    ensures r.None? <==> c.NullArg?
    ensures c.Given? ==> r == Some(c.flags)
    ensures c.Absent? || c.Primitive? ==> r == Some(NoFlags)
  {
    match c
    case Absent => Some(NoFlags)
    case NullArg => None
    case Primitive(_) => Some(NoFlags)
    case Given(f) => Some(f)
  }

  datatype StackDto = StackDto(id: int, userId: int, startDate: int, endDate: int, style: JsVal,
                               categoriesUsed: Policy)

  const StackDataRequired := "Stack data is required"
  const NullRead := "Cannot read properties of null (reading 'superior')"

  /** `new StackDTO(stackData, { style, categoriesUsed })`; a missing style
      becomes `null`. */
  function NewStackDto(stackData: Option<StackRow>, style: JsVal, categoriesUsed: CategoriesArg)
    : (r: Result<StackDto, string>)
    ensures stackData.None? ==> r == Err(StackDataRequired)
    ensures stackData.Some? && categoriesUsed.NullArg? ==> r == Err(NullRead)
    ensures r.Ok? ==> && stackData.Some? && ReadFlags(categoriesUsed).Some?
                      && r.value.id == stackData.value.id && r.value.userId == stackData.value.owner
                      && r.value.startDate == stackData.value.start && r.value.endDate == stackData.value.end
                      && r.value.style == (if style.Undefined? then Null else style)
                      && r.value.categoriesUsed == Normalise(ReadFlags(categoriesUsed).value)
    ensures stackData.Some? && !categoriesUsed.NullArg? ==> r.Ok?
  {
    match stackData
    case None => Err(StackDataRequired)
    case Some(row) =>
      match ReadFlags(categoriesUsed)
      case None => Err(NullRead)
      case Some(f) =>
        Ok(StackDto(row.id, row.owner, row.start, row.end, if style.Undefined? then Null else style,
                    Normalise(f)))
  }

  /** Building the DTO again from its own flags changes nothing. */
  lemma StackDtoStable(row: StackRow, style: JsVal, categoriesUsed: CategoriesArg)
    requires !categoriesUsed.NullArg?
    ensures var d := NewStackDto(Some(row), style, categoriesUsed).value;
      NewStackDto(Some(row), d.style, Given(Encode(d.categoriesUsed))) == Ok(d)
  {
    var d := NewStackDto(Some(row), style, categoriesUsed).value;
    NormaliseIdempotent(ReadFlags(categoriesUsed).value);
  }
}
