/** The `ColorDto` schema: a colour is a hex code `#RRGGBB` (either case)
    and a name of at most 50 UTF-16 code units (the length Joi counts),
    both required. */
module ColorDtos {
  import opened Basics
  import opened Js

  /** `/^#[0-9A-F]{6}$/i`. */
  predicate HexPattern(s: string) {
    |s| == 7 && s[0] == '#' && forall i :: 1 <= i < 7 ==> IsHexDigit(s[i])
  }

  /** What the schema reports first: fields are checked in order, and
      within a field presence, type, emptiness (a Joi string refuses `""`)
      and then the field's rule. */
  datatype Violation = HexRequired | HexNotString | HexEmpty | HexMismatch
                     | NombreRequired | NombreNotString | NombreEmpty | NombreTooLong

  datatype Color = Color(hex: string, nombre: string)

  /** The checks of one required Joi string: the value's own violation, in
      the order presence, type, emptiness. */
  function StringField(v: JsVal, required: Violation, notString: Violation, empty: Violation): (r: Result<string, Violation>)
    ensures r.Ok? <==> v.Str? && v.s != ""
    ensures r.Ok? ==> r.value == v.s
    ensures v.Undefined? ==> r == Err(required)
    ensures !v.Undefined? && !v.Str? ==> r == Err(notString)
  {
    if v.Undefined? then Err(required)
    else if !v.Str? then Err(notString)
    else if v.s == "" then Err(empty)
    else Ok(v.s)
  }

  /** `ColorDto.validate({ hex, nombre })`, stopping at the first
      violation. */
  function ValidateColor(hex: JsVal, nombre: JsVal): (r: Result<Color, Violation>)
    ensures r.Ok? <==> hex.Str? && HexPattern(hex.s) && nombre.Str? && nombre.s != "" && Utf16Length(nombre.s) <= 50
    ensures r.Ok? ==> r.value == Color(hex.s, nombre.s)
    ensures hex.Undefined? ==> r == Err(HexRequired)
    ensures hex.Str? && HexPattern(hex.s) && nombre.Undefined? ==> r == Err(NombreRequired)
  {
    match StringField(hex, HexRequired, HexNotString, HexEmpty)
    case Err(e) => Err(e)
    case Ok(h) =>
      if !HexPattern(h) then Err(HexMismatch)
      else
        match StringField(nombre, NombreRequired, NombreNotString, NombreEmpty)
        case Err(e) => Err(e)
        case Ok(n) =>
          if Utf16Length(n) > 50 then Err(NombreTooLong) else Ok(Color(h, n))
  }

  /** A non-empty code that does not match the pattern is refused with
      the pattern violation, before the name is looked at. */
  lemma MalformedHexRefused(h: string, nombre: JsVal)
    requires h != "" && !HexPattern(h)
    ensures ValidateColor(Str(h), nombre) == Err(HexMismatch)
  {
  }

  /** The three-digit shorthand `#rgb` is refused, while its six-digit
      expansion `#rrggbb` is accepted with any valid name. */
  lemma ShorthandRefused(a: char, b: char, c: char, nombre: JsVal)
    requires IsHexDigit(a) && IsHexDigit(b) && IsHexDigit(c)
    ensures ValidateColor(Str(['#', a, b, c]), nombre) == Err(HexMismatch)
    ensures ValidateColor(Str(['#', a, a, b, b, c, c]), nombre).Ok?
            <==> nombre.Str? && nombre.s != "" && Utf16Length(nombre.s) <= 50
  {
    assert HexPattern(['#', a, a, b, b, c, c]);
  }

  // ---------------------------------------------------------------- hex values

  function Pow16(k: nat): (p: nat)
    ensures p > 0
  {
    if k == 0 then 1 else 16 * Pow16(k - 1)
  }

  /** The upper-case hex digit of `n`. */
  function HexChar(n: nat): (c: char)
    requires n < 16
    ensures IsHexDigit(c) && HexDigitValue(c) == n
  {
    if n < 10 then ('0' as int + n) as char else ('A' as int + n - 10) as char
  }

  /** `n` written with `k` upper-case hex digits. */
  function HexDigits(n: nat, k: nat): (d: string)
    ensures |d| == k && forall i :: 0 <= i < |d| ==> IsHexDigit(d[i])
  {
    if k == 0 then "" else HexDigits(n / 16, k - 1) + [HexChar(n % 16)]
  }

  /** Reading `k` hex digits back gives the number they were written from,
      when it fits. */
  lemma {:induction false} HexDigitsValue(n: nat, k: nat)
    requires n < Pow16(k)
    ensures HexValue(HexDigits(n, k)) == n
  {
    if k > 0 {
      var d := HexDigits(n, k);
      assert d[..|d| - 1] == HexDigits(n / 16, k - 1);
      HexDigitsValue(n / 16, k - 1);
    }
  }

  /** The code of a 24-bit colour value. */
  function HexCode(rgb: nat): (s: string)
    requires rgb < 0x1000000
    ensures HexPattern(s)
  {
    "#" + HexDigits(rgb, 6)
  }

  /** Every 24-bit colour has a code the schema accepts, and the code reads
      back as the colour. */
  lemma HexCodeRoundTrip(rgb: nat, nombre: string)
    requires rgb < 0x1000000 && nombre != "" && Utf16Length(nombre) <= 50
    ensures ValidateColor(Str(HexCode(rgb)), Str(nombre)) == Ok(Color(HexCode(rgb), nombre))
    ensures HexValue(HexCode(rgb)[1..]) == rgb
  {
    assert Pow16(6) == 0x1000000;
    assert HexCode(rgb)[1..] == HexDigits(rgb, 6);
    HexDigitsValue(rgb, 6);
  }
}
