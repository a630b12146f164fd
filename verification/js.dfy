/** The JavaScript semantics the handlers rely on: values arriving in a JSON
    request body or a database row, truthiness, `parseInt`, and the string
    operations (`toLowerCase`, `trim`, `includes`, `join`) used by the
    validators. */
module Js {
  import opened Basics

  /** A JavaScript value. Numbers are integers; NaN, infinities and
      fractions are not modelled. */
  datatype JsVal = Undefined | Null | Bool(b: bool) | Num(n: int) | Str(s: string) | Obj

  /** JavaScript truthiness (`!!v`). */
  predicate Truthy(v: JsVal) {
    match v
    case Undefined => false
    case Null => false
    case Bool(b) => b
    case Num(n) => n != 0
    case Str(s) => s != ""
    case Obj => true
  }

  // ---------------------------------------------------------------- characters

  predicate IsDigit(c: char) { '0' <= c <= '9' }

  predicate IsUpperAscii(c: char) { 'A' <= c <= 'Z' }

  predicate AllDigits(s: string) {
    forall i :: 0 <= i < |s| ==> IsDigit(s[i])
  }

  /** `String.prototype.toLowerCase` on one character: ASCII and Latin-1
      capitals map to their lower-case letter, every other character is
      unchanged. */
  function LowerChar(c: char): (r: char)
    ensures IsUpperAscii(c) ==> r as int == c as int + 32
    ensures !IsUpperAscii(c) && !('À' <= c <= 'Þ' && c != '×') ==> r == c
  {
    if IsUpperAscii(c) || ('À' <= c <= 'Þ' && c != '×') then (c as int + 32) as char else c
  }

  function Lower(s: string): (r: string)
    ensures |r| == |s|
    ensures forall i :: 0 <= i < |s| ==> r[i] == LowerChar(s[i])
  {
    seq(|s|, i requires 0 <= i < |s| => LowerChar(s[i]))
  }

  /** The UTF-16 code units of one character: two for a character outside
      the Basic Multilingual Plane (a surrogate pair), one otherwise. */
  function Utf16Units(c: char): (n: nat)
    ensures n == 1 || n == 2
  {
    if c as int >= 0x10000 then 2 else 1
  }

  /** `String.prototype.length`, which Joi's `min` and `max` also count:
      the number of UTF-16 code units. */
  function Utf16Length(s: string): (n: nat)
    ensures |s| <= n <= 2 * |s|
    decreases |s|
  {
    if |s| == 0 then 0 else Utf16Length(s[..|s| - 1]) + Utf16Units(s[|s| - 1])
  }

  /** A string of Basic Multilingual Plane characters has one code unit
      per character. */
  lemma {:induction false} BmpLength(s: string)
    requires forall i :: 0 <= i < |s| ==> s[i] as int < 0x10000
    ensures Utf16Length(s) == |s|
    decreases |s|
  {
    if |s| > 0 {
      BmpLength(s[..|s| - 1]);
    }
  }

  /** Each character outside the Basic Multilingual Plane counts twice. */
  lemma Utf16Append(a: string, b: string)
    ensures Utf16Length(a + b) == Utf16Length(a) + Utf16Length(b)
    decreases |b|
  {
    if |b| > 0 {
      assert (a + b)[..|a + b| - 1] == a + b[..|b| - 1];
      Utf16Append(a, b[..|b| - 1]);
    } else {
      assert a + b == a;
    }
  }

  /** The characters `String.prototype.trim` removes: ECMAScript WhiteSpace
      and LineTerminator. */
  predicate IsSpace(c: char) {
    || c == ' ' || c == '\t' || c == '\n' || c == '\r' || c == '\U{000B}' || c == '\U{000C}'
    || c == '\U{00A0}' || c == '\U{1680}' || ('\U{2000}' <= c <= '\U{200A}')
    || c == '\U{2028}' || c == '\U{2029}' || c == '\U{202F}' || c == '\U{205F}'
    || c == '\U{3000}' || c == '\U{FEFF}'
  }

  function TrimStart(s: string): (r: string)
    ensures |r| <= |s| && r == s[|s| - |r|..]
    ensures |r| > 0 ==> !IsSpace(r[0])
    ensures forall i :: 0 <= i < |s| - |r| ==> IsSpace(s[i])
    ensures (|s| == 0 || !IsSpace(s[0])) ==> r == s
    decreases |s|
  {
    if |s| > 0 && IsSpace(s[0]) then
      var r := TrimStart(s[1..]);
      assert forall i :: 1 <= i < |s| - |r| ==> s[i] == s[1..][i - 1];
      r
    else s
  }

  function TrimEnd(s: string): (r: string)
    ensures |r| <= |s| && r == s[..|r|]
    ensures |r| > 0 ==> !IsSpace(r[|r| - 1])
    ensures forall i :: |r| <= i < |s| ==> IsSpace(s[i])
    ensures (|s| == 0 || !IsSpace(s[|s| - 1])) ==> r == s
    decreases |s|
  {
    if |s| > 0 && IsSpace(s[|s| - 1]) then
      var r := TrimEnd(s[..|s| - 1]);
      assert forall i :: |r| <= i < |s| - 1 ==> s[i] == s[..|s| - 1][i];
      r
    else s
  }

  /** `String.prototype.trim`: the middle part of `s` left once the white
      space at both ends is removed. */
  function Trim(s: string): (r: string)
    ensures |r| <= |s|
    ensures |r| > 0 ==> !IsSpace(r[0]) && !IsSpace(r[|r| - 1])
    ensures exists i, j :: 0 <= i <= j <= |s| && r == s[i..j]
                           && (forall k :: 0 <= k < i ==> IsSpace(s[k]))
                           && (forall k :: j <= k < |s| ==> IsSpace(s[k]))
    ensures (forall i :: 0 <= i < |s| ==> !IsSpace(s[i])) ==> r == s
  {
    TrimMiddle(s);
    TrimEnd(TrimStart(s))
  }

  /** The witness of `Trim`'s middle part: it starts where `trimStart`
      stopped and ends where `trimEnd` stopped. */
  lemma TrimMiddle(s: string)
    ensures var t := TrimStart(s); var r := TrimEnd(t); var i := |s| - |t|;
      && 0 <= i <= i + |r| <= |s| && r == s[i..i + |r|]
      && (forall k :: 0 <= k < i ==> IsSpace(s[k]))
      && (forall k :: i + |r| <= k < |s| ==> IsSpace(s[k]))
  {
    var t := TrimStart(s);
    var i := |s| - |t|;
    assert t == s[i..];
    SuffixMiddle(s, i, TrimEnd(t));
  }

  /** The blank tail `trimEnd` drops from a suffix of `s` is a blank tail
      of `s`. */
  lemma SuffixMiddle(s: string, i: nat, r: string)
    requires i <= |s| && r == TrimEnd(s[i..])
    ensures i + |r| <= |s| && r == s[i..i + |r|]
    ensures forall k :: i + |r| <= k < |s| ==> IsSpace(s[k])
  {
    var t := s[i..];
    assert r == t[..|r|];
    forall k | i + |r| <= k < |s|
      ensures IsSpace(s[k])
    {
      assert s[k] == t[k - i];
    }
  }

  /** `trim` is pinned by its ends: a text made of white space, then a part
      that starts and ends with something else, then white space, trims to
      that part. */
  lemma TrimPadded(a: string, w: string, b: string)
    requires forall k :: 0 <= k < |a| ==> IsSpace(a[k])
    requires forall k :: 0 <= k < |b| ==> IsSpace(b[k])
    requires |w| > 0 && !IsSpace(w[0]) && !IsSpace(w[|w| - 1])
    ensures Trim(a + w + b) == w
  {
    assert a + w + b == a + (w + b);
    TrimStartSkips(a, w + b);
    TrimEndSkips(w, b);
  }

  /** `trimStart` drops a blank prefix up to the first other character. */
  lemma {:induction false} TrimStartSkips(a: string, t: string)
    requires forall k :: 0 <= k < |a| ==> IsSpace(a[k])
    requires |t| > 0 && !IsSpace(t[0])
    ensures TrimStart(a + t) == t
    decreases |a|
  {
    if |a| == 0 {
      assert a + t == t;
    } else {
      assert (a + t)[0] == a[0];
      assert (a + t)[1..] == a[1..] + t;
      TrimStartSkips(a[1..], t);
    }
  }

  /** `trimEnd` drops a blank suffix back to the last other character. */
  lemma {:induction false} TrimEndSkips(t: string, b: string)
    requires forall k :: 0 <= k < |b| ==> IsSpace(b[k])
    requires |t| > 0 && !IsSpace(t[|t| - 1])
    ensures TrimEnd(t + b) == t
    decreases |b|
  {
    if |b| == 0 {
      assert t + b == t;
    } else {
      assert (t + b)[|t + b| - 1] == b[|b| - 1];
      assert (t + b)[..|t + b| - 1] == t + b[..|b| - 1];
      TrimEndSkips(t, b[..|b| - 1]);
    }
  }

  /** Only ASCII letters and the few characters between the two cases. */
  predicate Letters(s: string) {
    forall i :: 0 <= i < |s| ==> 'A' <= s[i] <= 'z'
  }

  /** `trim` leaves a word without white space as it is. */
  lemma LettersTrimmed(s: string)
    requires Letters(s)
    ensures Trim(s) == s
  {
  }

  /** `trim` empties a string of white space only. */
  lemma {:induction false} BlankTrimmed(s: string)
    requires forall i :: 0 <= i < |s| ==> IsSpace(s[i])
    ensures Trim(s) == ""
    decreases |s|
  {
    if |s| > 0 {
      BlankTrimmed(s[1..]);
    }
  }

  // ---------------------------------------------------------------- substrings

  predicate MatchAt(h: string, n: string, i: nat)
    requires i + |n| <= |h|
  {
    h[i..i + |n|] == n
  }

  /** `h.includes(n)`. */
  predicate Contains(h: string, n: string) {
    exists i: nat {:trigger MatchAt(h, n, i)} :: i + |n| <= |h| && MatchAt(h, n, i)
  }

  /** A text that lacks some character of `n` cannot contain `n`. */
  lemma MissingCharNotContained(h: string, n: string, c: char)
    requires c in n && c !in h
    ensures !Contains(h, n)
  {
  }

  /** `parts.join(', ')`. */
  function JoinComma(parts: seq<string>): (r: string)
    ensures |parts| == 1 ==> r == parts[0]
    decreases |parts|
  {
    if |parts| == 0 then ""
    else if |parts| == 1 then parts[0]
    else JoinComma(parts[..|parts| - 1]) + ", " + parts[|parts| - 1]
  }

  // ---------------------------------------------------------------- parseInt

  function DigitValue(c: char): nat
    requires IsDigit(c)
  {
    c as int - '0' as int
  }

  /** The value of a string of decimal digits. */
  function DigitsValue(d: string): nat
    requires AllDigits(d)
    decreases |d|
  {
    if |d| == 0 then 0 else DigitsValue(d[..|d| - 1]) * 10 + DigitValue(d[|d| - 1])
  }

  /** The longest prefix of `s` made of decimal digits. */
  function DigitPrefix(s: string): (r: string)
    ensures |r| <= |s| && r == s[..|r|] && AllDigits(r)
    ensures |r| < |s| ==> !IsDigit(s[|r|])
    decreases |s|
  {
    if |s| > 0 && IsDigit(s[0]) then [s[0]] + DigitPrefix(s[1..]) else ""
  }

  /** `parseInt(s, 10)` on a string: leading white space is skipped, an
      optional sign is read, then the longest run of digits; no digits gives
      NaN (`None`). */
  function ParseIntString(s: string): (r: Option<int>)
    ensures r.None? <==> |DigitPrefix(SignFree(TrimStart(s)))| == 0
  {
    var t := TrimStart(s);
    var body := SignFree(t);
    var digits := DigitPrefix(body);
    if |digits| == 0 then None
    else
      var magnitude: int := DigitsValue(digits);
      if |t| > 0 && t[0] == '-' then Some(-magnitude) else Some(magnitude)
  }

  function SignFree(t: string): string {
    if |t| > 0 && (t[0] == '+' || t[0] == '-') then t[1..] else t
  }

  /** `parseInt(v, 10)` on any value: the value is first converted to a string,
      so integers parse to themselves and booleans, null, undefined and plain
      objects give NaN. This holds for integers written in plain decimal,
      below 10^21 in magnitude; the exponent form `String` gives larger
      numbers, fractions and arrays are not modelled. */
  function ParseInt(v: JsVal): (r: Option<int>)
    ensures v.Num? ==> r == Some(v.n)
    ensures !v.Num? && !v.Str? ==> r.None?
  {
    match v
    case Num(n) => Some(n)
    case Str(s) => ParseIntString(s)
    case _ => None
  }

  predicate IsHexDigit(c: char) {
    ('0' <= c <= '9') || ('a' <= c <= 'f') || ('A' <= c <= 'F')
  }

  predicate AllHexDigits(s: string) {
    forall i :: 0 <= i < |s| ==> IsHexDigit(s[i])
  }

  function HexDigitValue(c: char): (n: nat)
    requires IsHexDigit(c)
    ensures n < 16
  {
    if '0' <= c <= '9' then c as int - '0' as int
    else if 'a' <= c <= 'f' then c as int - 'a' as int + 10
    else c as int - 'A' as int + 10
  }

  /** The value of a string of hex digits, most significant first. */
  function HexValue(d: string): nat
    requires forall i :: 0 <= i < |d| ==> IsHexDigit(d[i])
    decreases |d|
  {
    if |d| == 0 then 0 else 16 * HexValue(d[..|d| - 1]) + HexDigitValue(d[|d| - 1])
  }

  /** The longest prefix of `s` made of hexadecimal digits. */
  function HexPrefix(s: string): (r: string)
    ensures |r| <= |s| && r == s[..|r|] && AllHexDigits(r)
    ensures |r| < |s| ==> !IsHexDigit(s[|r|])
    decreases |s|
  {
    if |s| > 0 && IsHexDigit(s[0]) then [s[0]] + HexPrefix(s[1..]) else ""
  }

  /** Whether a sign-free numeral opens with `0x` or `0X`. */
  predicate HexMarked(body: string) {
    |body| >= 2 && body[0] == '0' && (body[1] == 'x' || body[1] == 'X')
  }

  /** `parseInt(s)` with no radix on a string: as in base 10, except that a
      `0x` or `0X` after the sign switches to base 16 and is skipped; no
      digits after the prefix gives NaN (`None`). */
  function ParseIntAutoString(s: string): (r: Option<int>)
    ensures !HexMarked(SignFree(TrimStart(s))) ==> r == ParseIntString(s)
    ensures HexMarked(SignFree(TrimStart(s))) ==>
      (r.None? <==> |HexPrefix(SignFree(TrimStart(s))[2..])| == 0)
  {
    var t := TrimStart(s);
    var body := SignFree(t);
    if !HexMarked(body) then ParseIntString(s)
    else
      var digits := HexPrefix(body[2..]);
      if |digits| == 0 then None
      else
        var magnitude: int := HexValue(digits);
        if |t| > 0 && t[0] == '-' then Some(-magnitude) else Some(magnitude)
  }

  /** `parseInt(v)` with no radix on any value: integers are rendered in
      decimal first, so only strings can carry the hexadecimal prefix. */
  function ParseIntAuto(v: JsVal): (r: Option<int>)
    ensures v.Num? ==> r == Some(v.n)
    ensures !v.Num? && !v.Str? ==> r.None?
  {
    match v
    case Num(n) => Some(n)
    case Str(s) => ParseIntAutoString(s)
    case _ => None
  }

  /** A prefixed run of hexadecimal digits reads as its base-16 value, and
      the prefix alone is NaN. */
  lemma {:induction false} HexNumeral(h: string)
    requires AllHexDigits(h)
    ensures ParseIntAuto(Str("0x" + h)) == if |h| == 0 then None else Some(HexValue(h))
  {
    var s := "0x" + h;
    assert s[0] == '0' && s[1] == 'x';
    assert !IsSpace(s[0]);
    assert TrimStart(s) == s;
    assert SignFree(s) == s;
    assert s[2..] == h;
    AllHexPrefix(h);
  }

  /** `parseInt("0x")` is NaN. */
  lemma HexMarkAlone()
    ensures ParseIntAuto(Str("0x")) == None
  {
    HexNumeral("");
    assert "0x" + "" == "0x";
  }

  /** `parseInt("0x1A")` is 26. */
  lemma HexMarkedByte()
    ensures ParseIntAuto(Str("0x1A")) == Some(26)
  {
    var s := "0x" + "1A";
    assert ParseIntAuto(Str(s)) == Some(26) by {
      HexByteValue();
      HexNumeral("1A");
    }
    assert s == "0x1A";
  }

  lemma HexByteValue()
    ensures AllHexDigits("1A") && HexValue("1A") == 26
  {
    var d := "1A";
    assert d[..1] == "1";
    assert HexValue(d[..1]) == 1 by { assert "1"[..0] == ""; }
    assert HexDigitValue(d[1]) == 10;
  }

  lemma {:induction false} AllHexPrefix(d: string)
    requires AllHexDigits(d)
    ensures HexPrefix(d) == d
    decreases |d|
  {
    if |d| > 0 {
      AllHexPrefix(d[1..]);
    }
  }

  /** Without the prefix the radix-less `parseInt` is `parseInt(v, 10)`; in
      particular it reads a decimal numeral back as its number. */
  lemma {:induction false} AutoDecimal(n: nat)
    ensures ParseIntAuto(Str(Decimal(n))) == Some(n)
  {
    var d := Decimal(n);
    assert !IsSpace(d[0]) && d[0] != '+' && d[0] != '-' by { assert IsDigit(d[0]); }
    assert TrimStart(d) == d;
    assert SignFree(d) == d;
    assert !HexMarked(d) by {
      if |d| >= 2 { assert IsDigit(d[1]); }
    }
    ParseIntDecimal(n);
  }

  /** The decimal rendering of a natural number, as `String(n)` produces it. */
  function Decimal(n: nat): (r: string)
    ensures |r| > 0 && AllDigits(r)
    decreases n
  {
    if n < 10 then [('0' as int + n) as char]
    else Decimal(n / 10) + [('0' as int + n % 10) as char]
  }

  /** `String(n)` of an integer written in plain decimal. */
  function NumberText(n: int): (r: string)
    ensures |r| > 0 && IsDigit(r[|r| - 1])
    ensures forall i :: 0 <= i < |r| ==> IsDigit(r[i]) || r[i] == '-'
  {
    if n < 0 then "-" + Decimal(-n) else Decimal(n)
  }

  /** `String(v)`: the text a value turns into when a string is needed. */
  function JsText(v: JsVal): string {
    match v
    case Undefined => "undefined"
    case Null => "null"
    case Bool(b) => if b then "true" else "false"
    case Num(n) => NumberText(n)
    case Str(s) => s
    case Obj => "[object Object]"
  }

  /** `parseInt` reads back what `String` wrote: the two are inverse on the
      naturals. */
  lemma {:induction false} ParseIntDecimal(n: nat)
    ensures ParseIntString(Decimal(n)) == Some(n)
  {
    var d := Decimal(n);
    assert !IsSpace(d[0]) && d[0] != '+' && d[0] != '-' by { assert IsDigit(d[0]); }
    assert TrimStart(d) == d;
    assert SignFree(d) == d;
    AllDigitsPrefix(d);
    DecimalValue(n);
  }

  lemma {:induction false} AllDigitsPrefix(d: string)
    requires AllDigits(d)
    ensures DigitPrefix(d) == d
    decreases |d|
  {
    if |d| > 0 {
      AllDigitsPrefix(d[1..]);
    }
  }

  lemma {:induction false} DecimalValue(n: nat)
    ensures DigitsValue(Decimal(n)) == n
    decreases n
  {
    if n >= 10 {
      var d := Decimal(n);
      DecimalValue(n / 10);
      assert d[..|d| - 1] == Decimal(n / 10);
    }
  }
}
