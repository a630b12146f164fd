/** Weekday names and the English/Spanish translation table shared by the
    outfit generator, `Outfit.create`, the stack service and the outfit
    listing. Dates are integer day numbers; day 0 is a Sunday, so the
    weekday of day `n` (`Date.prototype.getDay()`) is `n % 7`. */
module Days {
  import opened Basics
  import opened Js

  /** Spanish names indexed by weekday (0 = Sunday), the `diasSemanaEspanol`
      and `diasSemana` lists. */
  const DiasSemana: seq<string> :=
    ["Domingo", "Lunes", "Martes", "Miércoles", "Jueves", "Viernes", "Sábado"]

  /** English names indexed by weekday, as the database renders a date with
      `TO_CHAR(date, 'TMDay')`. */
  const EnglishNames: seq<string> :=
    ["Sunday", "Monday", "Tuesday", "Wednesday", "Thursday", "Friday", "Saturday"]

  /** `DAYS_TRANSLATION` in declaration order: (English key, Spanish name). */
  const Translation: seq<(string, string)> :=
    [("monday", "Lunes"), ("tuesday", "Martes"), ("wednesday", "Miércoles"),
     ("thursday", "Jueves"), ("friday", "Viernes"), ("saturday", "Sábado"),
     ("sunday", "Domingo")]

  function Weekday(day: int): (w: nat)
    ensures w < 7
  {
    day % 7
  }

  /** The seven Spanish names are pairwise different. */
  lemma SpanishNamesDistinct()
    ensures forall i, j :: 0 <= i < j < 7 ==> DiasSemana[i] != DiasSemana[j]
  {
    var d := DiasSemana;
    assert d[0][0] == 'D' && d[1][0] == 'L' && d[2][0] == 'M' && d[3][0] == 'M';
    assert d[4][0] == 'J' && d[5][0] == 'V' && d[6][0] == 'S' && d[2][1] == 'a' && d[3][1] == 'i';
  }

  /** The first row of the table at or after position `k` whose Spanish name
      equals `spanish` ignoring case. */
  function FindEnglish(spanish: string, k: nat): (r: Option<string>)
    ensures r.Some? <==> exists j :: k <= j < |Translation| && Lower(Translation[j].1) == Lower(spanish)
    ensures r.Some? ==> exists j :: k <= j < |Translation| && Lower(Translation[j].1) == Lower(spanish)
                                    && r.value == Translation[j].0
    decreases |Translation| - k
  {
    if k >= |Translation| then None
    else if Lower(Translation[k].1) == Lower(spanish) then Some(Translation[k].0)
    else FindEnglish(spanish, k + 1)
  }

  /** `getEnglishDay`: the English key whose Spanish name matches ignoring
      case, or null. */
  function GetEnglishDay(spanish: string): (r: Option<string>)
    ensures r.None? <==> forall j :: 0 <= j < |Translation| ==> Lower(Translation[j].1) != Lower(spanish)
    ensures r.Some? ==> exists j :: 0 <= j < |Translation| && Lower(Translation[j].1) == Lower(spanish)
                                    && r.value == Translation[j].0
  {
    FindEnglish(spanish, 0)
  }

  /** The lower-cased Spanish names are pairwise different, so the reverse
      lookup is unambiguous. */
  lemma LoweredNamesDistinct()
    ensures forall i, j :: 0 <= i < j < |Translation| ==> Lower(Translation[i].1) != Lower(Translation[j].1)
  {
    assert Lower("Lunes") == "lunes";
    assert Lower("Martes") == "martes";
    assert Lower("Miércoles") == "miércoles";
    assert Lower("Jueves") == "jueves";
    assert Lower("Viernes") == "viernes";
    assert Lower("Sábado") == "sábado";
    assert Lower("Domingo") == "domingo";
  }

  /** Round trip: the reverse lookup of a table value, in any letter case,
      returns that row's English key. */
  lemma GetEnglishDayRoundTrip(k: nat, spanish: string)
    requires k < |Translation| && Lower(spanish) == Lower(Translation[k].1)
    ensures GetEnglishDay(spanish) == Some(Translation[k].0)
  {
    LoweredNamesDistinct();
  }

  /** The row of the table at or after position `k` whose English key is `key`. */
  function FindSpanish(key: string, k: nat): (r: Option<string>)
    ensures r.Some? <==> exists j :: k <= j < |Translation| && Translation[j].0 == key
    ensures r.Some? ==> exists j :: k <= j < |Translation| && Translation[j] == (key, r.value)
    decreases |Translation| - k
  {
    if k >= |Translation| then None
    else if Translation[k].0 == key then Some(Translation[k].1)
    else FindSpanish(key, k + 1)
  }

  /** The own-key lookup `DAYS_TRANSLATION[key]`. */
  function LookupSpanish(key: string): (r: Option<string>)
    ensures r.Some? <==> exists j :: 0 <= j < |Translation| && Translation[j].0 == key
    ensures r.Some? ==> exists j :: 0 <= j < |Translation| && Translation[j] == (key, r.value)
  {
    FindSpanish(key, 0)
  }

  /** `DAYS_TRANSLATION[label.toLowerCase()] || label`, the day label of a
      stack's outfit. */
  function TranslateLabel(text: string): (r: string)
    ensures forall j :: 0 <= j < |Translation| && Translation[j].0 == Lower(text) ==> r == Translation[j].1
    ensures (forall j :: 0 <= j < |Translation| ==> Translation[j].0 != Lower(text)) ==> r == text
  {
    match LookupSpanish(Lower(text))
    case Some(v) => v
    case None => text
  }

  /** The database's English rendering of a weekday translates to the
      generator's Spanish name of the same weekday. */
  lemma TranslateEnglishName(w: nat)
    requires w < 7
    ensures TranslateLabel(EnglishNames[w]) == DiasSemana[w]
  {
    var j := if w == 0 then 6 else w - 1;
    EnglishKey(w);
    assert Translation[j].1 == DiasSemana[w];
  }

  /** Lower-casing an English name gives the table key of the same day. */
  lemma EnglishKey(w: nat)
    requires w < 7
    ensures Lower(EnglishNames[w]) == Translation[if w == 0 then 6 else w - 1].0
  {
    if w == 0 {
      assert Lower("Sunday") == "sunday";
    } else if w == 1 {
      assert Lower("Monday") == "monday";
    } else if w == 2 {
      assert Lower("Tuesday") == "tuesday";
    } else if w == 3 {
      assert Lower("Wednesday") == "wednesday";
    } else if w == 4 {
      assert Lower("Thursday") == "thursday";
    } else if w == 5 {
      assert Lower("Friday") == "friday";
    } else {
      assert Lower("Saturday") == "saturday";
    }
  }

  /** The weekday filter of `getFilteredOutfits`: a non-empty `dia` whose
      lower-cased form is an English key becomes a filter on that key; any
      other value adds no filter. */
  function DayFilter(dia: Option<string>): (r: Option<string>)
    ensures r.Some? ==> dia.Some? && dia.value != "" && r.value == Lower(dia.value)
                        && exists j :: 0 <= j < |Translation| && Translation[j].0 == r.value
    ensures dia.Some? && dia.value != "" && LookupSpanish(Lower(dia.value)).Some? ==> r.Some?
  {
    match dia
    case None => None
    case Some(d) =>
      if d != "" && LookupSpanish(Lower(d)).Some? then Some(Lower(d)) else None
  }

  /** The filter takes English day names only: a Spanish day name, as the
      stack responses show them, adds no filter at all. */
  lemma SpanishNameIsNoFilter(w: nat)
    requires w < 7
    ensures DayFilter(Some(DiasSemana[w])) == None
  {
    assert Lower("Domingo") == "domingo";
    assert Lower("Lunes") == "lunes";
    assert Lower("Martes") == "martes";
    assert Lower("Miércoles") == "miércoles";
    assert Lower("Jueves") == "jueves";
    assert Lower("Viernes") == "viernes";
    assert Lower("Sábado") == "sábado";
  }

  /** The decoration `getFilteredOutfits` adds to each row: its kind and its
      translated day. */
  datatype Decoration = Decoration(tipo: string, dia: string)

  /** `tipo` is 'stack' exactly when the row's stack id is truthy, and `dia`
      is the Spanish name of an English key, or the database text unchanged. */
  function DecorateRow(stackId: Option<int>, diaSemanaEn: string): (r: Decoration)
    ensures r.tipo == "stack" <==> stackId.Some? && stackId.value != 0
    ensures r.tipo == "unique" <==> !(stackId.Some? && stackId.value != 0)
    ensures LookupSpanish(diaSemanaEn).Some? ==> r.dia == LookupSpanish(diaSemanaEn).value
    ensures LookupSpanish(diaSemanaEn).None? ==> r.dia == diaSemanaEn
  {
    Decoration(
      if stackId.Some? && stackId.value != 0 then "stack" else "unique",
      match LookupSpanish(diaSemanaEn) case Some(v) => v case None => diaSemanaEn)
  }

  const NotAssigned := "no asignado"

  /** The `dia_semana_en` column of the listing query: the lower-cased
      English name of the assigned date, or `no asignado`. */
  function DiaSemanaEn(fecha: Option<int>): (r: string)
    ensures fecha.Some? ==> r == Lower(EnglishNames[Weekday(fecha.value)])
    ensures fecha.None? ==> r == NotAssigned
  {
    match fecha
    case Some(f) => Lower(EnglishNames[Weekday(f)])
    case None => NotAssigned
  }

  /** The listing shows a dated outfit under the Spanish name of its
      weekday, the same label the stack responses give it, and an undated
      one as `no asignado`. */
  lemma DecoratedDay(stackId: Option<int>, fecha: Option<int>)
    ensures fecha.Some? ==> DecorateRow(stackId, DiaSemanaEn(fecha)).dia == DiasSemana[Weekday(fecha.value)]
    ensures fecha.Some? ==> DecorateRow(stackId, DiaSemanaEn(fecha)).dia == TranslateLabel(EnglishNames[Weekday(fecha.value)])
    ensures fecha.None? ==> DecorateRow(stackId, DiaSemanaEn(fecha)).dia == NotAssigned
  {
    match fecha
    case Some(f) =>
      TranslateEnglishName(Weekday(f));
    case None =>
      assert forall j :: 0 <= j < |Translation| ==> |Translation[j].0| < |NotAssigned|;
  }
}
