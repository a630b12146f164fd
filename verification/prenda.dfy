/** Clothing items on the way in: `RegistrarPrendaDTO` (the style whitelist
    and the defaults), `EditarPrendaDTO`, `PrendaService.actualizarCampo`
    and the `COALESCE` update it ends in. */
module Prendas {
  import opened Basics
  import opened Js

  const EstilosValidos: seq<string> := ["Semiformal", "Casual", "Formal", "Deportivo", "Moderno"]
  const DefaultRuta := "/uploads/default.jpg"
  const EstiloInvalido := "Estilo inválido. Debe ser uno de: "
  const DatosInsuficientes := "Datos insuficientes para actualización"

  // ---------------------------------------------------------------- registration

  /** The body of a registration: every field as received. */
  datatype PrendaInput = PrendaInput(idUsuario: JsVal, nombrePrenda: JsVal, nombreCategoria: JsVal,
                                     nombreSubcategoria: JsVal, estilo: JsVal, colorPrincipal: JsVal,
                                     colorSecundario: JsVal, ruta: JsVal)

  datatype RegistrarPrenda = RegistrarPrenda(idUsuario: JsVal, nombrePrenda: JsVal, nombreCategoria: JsVal,
                                             nombreSubcategoria: JsVal, estilo: string, colorPrincipal: JsVal,
                                             colorSecundario: JsVal, ruta: JsVal)

  /** `s.replace(/["']/g, '')`. */
  function RemoveQuotes(s: string): (r: string)
    ensures |r| <= |s|
    ensures forall i :: 0 <= i < |r| ==> r[i] != '"' && r[i] != '\''
    ensures (forall i :: 0 <= i < |s| ==> s[i] != '"' && s[i] != '\'') ==> r == s
  {
    var r := Filter(s, NotQuote);
    assert (forall i :: 0 <= i < |s| ==> NotQuote(s[i])) ==> r == s by {
      if forall i :: 0 <= i < |s| ==> NotQuote(s[i]) {
        FilterAll(s, NotQuote);
      }
    }
    r
  }

  predicate NotQuote(c: char) {
    c != '"' && c != '\''
  }

  /** The global replacement works piece by piece: removing the quotes of
      a concatenation removes them from each part. */
  lemma RemoveQuotesAppend(a: string, b: string)
    ensures RemoveQuotes(a + b) == RemoveQuotes(a) + RemoveQuotes(b)
  {
    FilterAppend(a, b, NotQuote);
  }

  /** One character is deleted exactly when it is a quote. */
  lemma RemoveQuotesChar(c: char)
    ensures RemoveQuotes([c]) == if c == '"' || c == '\'' then [] else [c]
  {
    assert [c][..0] == [];
  }

  /** Together the two lemmas above pin the function: every character is
      kept in order unless it is a quote. */
  lemma {:induction false} RemoveQuotesKeepsOthers(s: string)
    ensures RemoveQuotes(s) == if |s| == 0 then [] else
      RemoveQuotes(s[..|s| - 1]) + (if s[|s| - 1] == '"' || s[|s| - 1] == '\'' then [] else [s[|s| - 1]])
  {
    if |s| > 0 {
      assert s == s[..|s| - 1] + [s[|s| - 1]];
      RemoveQuotesAppend(s[..|s| - 1], [s[|s| - 1]]);
      RemoveQuotesChar(s[|s| - 1]);
    }
  }

  /** A word between two quotes of either kind loses exactly the quotes. */
  lemma QuotesStripped(q1: char, w: string, q2: char)
    requires !NotQuote(q1) && !NotQuote(q2) && Letters(w)
    ensures RemoveQuotes([q1] + w + [q2]) == w
  {
    var front := [q1] + w;
    RemoveQuotesAppend(front, [q2]);
    RemoveQuotesAppend([q1], w);
    RemoveQuotesChar(q1);
    RemoveQuotesChar(q2);
    assert forall i :: 0 <= i < |w| ==> w[i] != '"' && w[i] != '\'';
    assert RemoveQuotes(w) == w;
    assert RemoveQuotes(front) == w;
  }

  /** The cleaning of the style: trimmed, quotes removed. */
  function CleanEstilo(s: string): string {
    RemoveQuotes(Trim(s))
  }

  /** Cleaning leaves a word as it is; the whitelisted styles are words. */
  lemma CleanKeepsWord(s: string)
    requires Letters(s)
    ensures CleanEstilo(s) == s
  {
    LettersTrimmed(s);
  }

  lemma ValidLetters(s: string)
    requires s in EstilosValidos
    ensures Letters(s)
  {
  }

  /** `new RegistrarPrendaDTO(body)`: the style must be one of the five,
      exactly; the secondary colour defaults to `null` and the image path to
      the placeholder. */
  function NewRegistrarPrenda(b: PrendaInput): (r: Result<RegistrarPrenda, string>)
    ensures r.Ok? <==> b.estilo.Str? && b.estilo.s in EstilosValidos
    ensures r.Err? ==> r.error == EstiloInvalido + JoinComma(EstilosValidos)
    ensures r.Ok? ==> && r.value.estilo == b.estilo.s
                      && r.value.colorSecundario == (if b.colorSecundario.Undefined? then Null else b.colorSecundario)
                      && r.value.ruta == (if b.ruta.Undefined? then Str(DefaultRuta) else b.ruta)
                      && r.value.idUsuario == b.idUsuario && r.value.nombrePrenda == b.nombrePrenda
                      && r.value.nombreCategoria == b.nombreCategoria
                      && r.value.nombreSubcategoria == b.nombreSubcategoria
                      && r.value.colorPrincipal == b.colorPrincipal
  {
    var colorSecundario := if b.colorSecundario.Undefined? then Null else b.colorSecundario;
    var ruta := if b.ruta.Undefined? then Str(DefaultRuta) else b.ruta;
    if !(b.estilo.Str? && b.estilo.s in EstilosValidos) then Err(EstiloInvalido + JoinComma(EstilosValidos))
    else
      var limpio := CleanEstilo(b.estilo.s);
      ValidLetters(b.estilo.s);
      CleanKeepsWord(b.estilo.s);
      if limpio !in EstilosValidos then Err("Estilo inválido: \"" + limpio + "\". Debe ser uno de: " + JoinComma(EstilosValidos))
      else
        Ok(RegistrarPrenda(b.idUsuario, b.nombrePrenda, b.nombreCategoria, b.nombreSubcategoria, limpio,
                           b.colorPrincipal, colorSecundario, ruta))
  }

  /** The whitelisted styles have nothing for the cleaning to remove. */
  lemma WhitelistClean(s: string)
    ensures s in EstilosValidos ==> Trim(s) == s && '"' !in s && '\'' !in s
  {
    if s in EstilosValidos {
      ValidLetters(s);
      LettersTrimmed(s);
    }
  }

  /** A style with surrounding white space or a quote is refused by the
      first check, with the first message, even when cleaning would have
      turned it into a whitelisted style: the cleaning never repairs
      anything. */
  lemma PaddedStyleRefused(b: PrendaInput)
    requires b.estilo.Str?
    requires Trim(b.estilo.s) != b.estilo.s || '"' in b.estilo.s || '\'' in b.estilo.s
    ensures NewRegistrarPrenda(b) == Err(EstiloInvalido + JoinComma(EstilosValidos))
  {
    WhitelistClean(b.estilo.s);
  }

  /** A whitelisted style sent with a leading space or in quotes cleans
      to that style, yet it is refused. */
  lemma CleanableStylesRefused(w: string, b: PrendaInput)
    requires w in EstilosValidos
    requires b.estilo == Str([' '] + w) || b.estilo == Str(['"'] + w + ['"'])
    ensures CleanEstilo(b.estilo.s) == w
    ensures NewRegistrarPrenda(b) == Err(EstiloInvalido + JoinComma(EstilosValidos))
  {
    ValidLetters(w);
    if b.estilo == Str([' '] + w) {
      PaddedCleans(w);
    } else {
      QuotedCleans(w);
    }
    PaddedStyleRefused(b);
  }

  lemma PaddedCleans(w: string)
    requires Letters(w) && w != ""
    ensures CleanEstilo([' '] + w) == w
    ensures Trim([' '] + w) != [' '] + w
  {
    var s := [' '] + w;
    assert s[1..] == w;
    LettersTrimmed(w);
    assert TrimStart(s) == TrimStart(w);
  }

  lemma QuotedCleans(w: string)
    requires Letters(w) && w != ""
    ensures CleanEstilo(['"'] + w + ['"']) == w
    ensures '"' in ['"'] + w + ['"']
  {
    var s := ['"'] + w + ['"'];
    assert s[0] == '"' && s[|s| - 1] == '"';
    assert TrimStart(s) == s;
    assert Trim(s) == s;
    QuoteFilter(w);
  }

  lemma QuoteFilter(w: string)
    requires Letters(w)
    ensures RemoveQuotes(['"'] + w + ['"']) == w
  {
    var q := ['"'];
    var qw := q + w;
    assert forall i :: 0 <= i < |w| ==> NotQuote(w[i]);
    FilterAll(w, NotQuote);
    assert q[..0] == [];
    assert Filter(q, NotQuote) == [];
    FilterAppend(q, w, NotQuote);
    assert Filter(qw, NotQuote) == w;
    FilterAppend(qw, q, NotQuote);
    assert qw + q == ['"'] + w + ['"'];
  }

  // ---------------------------------------------------------------- editing

  /** An object's own keys and values. A key set to `undefined` is
      present; a missing key is not. */
  type Fields = map<string, JsVal>

  function Get(f: Fields, k: string): JsVal {
    if k in f then f[k] else Undefined
  }

  /** `EditarPrendaDTO`: the three editable fields and the active flag. */
  datatype EditarPrenda = EditarPrenda(nombrePrenda: JsVal, estilo: JsVal, colorSecundario: JsVal, status: JsVal)

  /** `new EditarPrendaDTO(fields)`: missing values become `null`, the flag
      `true`. */
  function NewEditarPrenda(f: Fields): (d: EditarPrenda)
    ensures d.nombrePrenda == (if Get(f, "nombre_prenda").Undefined? then Null else Get(f, "nombre_prenda"))
    ensures d.estilo == (if Get(f, "estilo").Undefined? then Null else Get(f, "estilo"))
    ensures d.colorSecundario == (if Get(f, "color_secundario").Undefined? then Null else Get(f, "color_secundario"))
    ensures d.status == (if Get(f, "status").Undefined? then Bool(true) else Get(f, "status"))
    ensures !d.nombrePrenda.Undefined? && !d.estilo.Undefined? && !d.colorSecundario.Undefined? && !d.status.Undefined?
  {
    EditarPrenda(OrNull(Get(f, "nombre_prenda")), OrNull(Get(f, "estilo")), OrNull(Get(f, "color_secundario")),
                 if Get(f, "status").Undefined? then Bool(true) else Get(f, "status"))
  }

  function OrNull(v: JsVal): JsVal {
    if v.Undefined? then Null else v
  }

  /** The fields after the renaming of `color_secundario` to
      `id_color_secundario`, a falsy colour becoming `null`. */
  function Renamed(f: Fields): (g: Fields)
    ensures "color_secundario" !in g
    ensures "color_secundario" in f ==> g == f - {"color_secundario"} + map["id_color_secundario" :=
                                            if Truthy(f["color_secundario"]) then f["color_secundario"] else Null]
    ensures "color_secundario" !in f ==> g == f
  {
    if "color_secundario" in f then
      var v := f["color_secundario"];
      (f - {"color_secundario"})["id_color_secundario" := if Truthy(v) then v else Null]
    else f
  }

  /** `actualizarCampo`: the ids must be truthy and the fields object
      present and non-empty; then the renaming and the DTO with the flag
      defaulted to `true`. */
  function ActualizarCampo(idPrenda: JsVal, idUsuario: JsVal, campos: Option<Fields>): (r: Result<EditarPrenda, string>)
    ensures r.Err? <==> !Truthy(idPrenda) || !Truthy(idUsuario) || campos.None? || |campos.value| == 0
    ensures r.Err? ==> r.error == DatosInsuficientes
  {
    if !Truthy(idPrenda) || !Truthy(idUsuario) || campos.None? || |campos.value| == 0 then Err(DatosInsuficientes)
    else
      var g := Renamed(campos.value);
      var status := Get(g, "status");
      Ok(NewEditarPrenda(g["status" := if !status.Undefined? then status else Bool(true)]))
  }

  /** The name and the style reach the DTO as they were sent. */
  lemma EditPassesNameAndStyle(idPrenda: JsVal, idUsuario: JsVal, campos: Fields)
    requires Truthy(idPrenda) && Truthy(idUsuario) && |campos| > 0
    ensures var d := ActualizarCampo(idPrenda, idUsuario, Some(campos)).value;
      && d.nombrePrenda == OrNull(Get(campos, "nombre_prenda"))
      && d.estilo == OrNull(Get(campos, "estilo"))
  {
  }

  /** The DTO never carries a secondary colour: the service has moved it to
      a key the DTO does not read. */
  lemma EditDropsSecondaryColour(idPrenda: JsVal, idUsuario: JsVal, campos: Option<Fields>)
    requires ActualizarCampo(idPrenda, idUsuario, campos).Ok?
    ensures ActualizarCampo(idPrenda, idUsuario, campos).value.colorSecundario == Null
  {
  }

  /** An edit that does not mention the flag sets it to `true`. */
  lemma EditSetsActive(idPrenda: JsVal, idUsuario: JsVal, campos: Fields)
    requires Truthy(idPrenda) && Truthy(idUsuario) && |campos| > 0
    requires Get(campos, "status").Undefined?
    ensures ActualizarCampo(idPrenda, idUsuario, Some(campos)).value.status == Bool(true)
  {
    assert Get(Renamed(campos), "status").Undefined?;
  }

  // ---------------------------------------------------------------- the update

  /** The editable columns of a stored item. */
  datatype Stored = Stored(nombrePrenda: JsVal, estilo: JsVal, idColorSecundario: JsVal, status: JsVal)

  /** `COALESCE(v, column)`: a `null` (or `undefined`, sent as `null`)
      parameter keeps the column. */
  function Coalesce(v: JsVal, column: JsVal): (r: JsVal)
    ensures v.Null? || v.Undefined? ==> r == column
    ensures !v.Null? && !v.Undefined? ==> r == v
  {
    if v.Null? || v.Undefined? then column else v
  }

  /** The `UPDATE` of `editarPrenda`, given the value bound to each
      column. */
  function Update(row: Stored, nombre: JsVal, estilo: JsVal, idColor: JsVal, status: JsVal): Stored {
    Stored(Coalesce(nombre, row.nombrePrenda), Coalesce(estilo, row.estilo), Coalesce(idColor, row.idColorSecundario),
           Coalesce(status, row.status))
  }

  /** `editarPrenda(row, dto)` as written: the colour parameter is
      `datosEdicion.id_color_secundario`, a property the DTO does not
      have. */
  function EditarPrendaAsWritten(row: Stored, d: EditarPrenda): Stored {
    Update(row, d.nombrePrenda, d.estilo, Undefined, d.status)
  }

  /** An edit of the secondary colour, as written, leaves the stored colour
      unchanged, whatever colour was sent. */
  lemma SecondaryColourNeverStored(row: Stored, idPrenda: JsVal, idUsuario: JsVal, campos: Option<Fields>)
    requires ActualizarCampo(idPrenda, idUsuario, campos).Ok?
    ensures EditarPrendaAsWritten(row, ActualizarCampo(idPrenda, idUsuario, campos).value).idColorSecundario
              == row.idColorSecundario
  {
  }

  /** The chain the colour endpoint evidently intends: the renamed key
      `id_color_secundario` reaches the update. */
  function ActualizarColorIntended(row: Stored, idPrenda: JsVal, idUsuario: JsVal, campos: Option<Fields>)
    : (r: Result<Stored, string>)
    ensures r.Err? <==> ActualizarCampo(idPrenda, idUsuario, campos).Err?
    ensures r.Ok? ==> var d := ActualizarCampo(idPrenda, idUsuario, campos).value;
      r.value == Update(row, d.nombrePrenda, d.estilo, Get(Renamed(campos.value), "id_color_secundario"), d.status)
  {
    match ActualizarCampo(idPrenda, idUsuario, campos)
    case Err(e) => Err(e)
    case Ok(d) => Ok(Update(row, d.nombrePrenda, d.estilo, Get(Renamed(campos.value), "id_color_secundario"), d.status))
  }

  /** With the intended chain, the colour endpoint's request
      `{ color_secundario: c }` stores `c` and, as the flag defaults to
      `true`, reactivates the item; the name and the style are kept. */
  lemma IntendedColourStored(row: Stored, idPrenda: JsVal, idUsuario: JsVal, c: JsVal)
    requires Truthy(idPrenda) && Truthy(idUsuario) && Truthy(c)
    ensures ActualizarColorIntended(row, idPrenda, idUsuario, Some(map["color_secundario" := c]))
              == Ok(Stored(row.nombrePrenda, row.estilo, c, Bool(true)))
  {
    var campos := map["color_secundario" := c];
    var g := Renamed(campos);
    assert g == map["id_color_secundario" := c];
    assert "nombre_prenda" !in g && "estilo" !in g && "status" !in g;
  }
}
