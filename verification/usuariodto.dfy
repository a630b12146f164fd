/** The password, phone and recovery-code rules of the user schemas, and the
    stricter password check the user handlers run themselves. Joi's own
    messages are not modelled: a schema either accepts or rejects. */
module UsuarioDtos {
  import opened Basics
  import opened Js

  // ---------------------------------------------------------------- password rules

  predicate HasUpper(p: string) {
    exists i :: 0 <= i < |p| && IsUpperAscii(p[i])
  }

  predicate HasDigit(p: string) {
    exists i :: 0 <= i < |p| && IsDigit(p[i])
  }

  /** The class `[!@#$%^&*(),.?":{}|<>]` of the handlers and of the reset
      and change schemas. */
  predicate NarrowSpecial(c: char) {
    c in "!@#$%^&*(),.?\":{}|<>"
  }

  /** The class `[!@#$%^&*()_+\-=\[\]{};':"\\|,.<>\/?]` of the
      registration schema. */
  predicate BroadSpecial(c: char) {
    c in "!@#$%^&*()_+-=[]{};':\"\\|,.<>/?"
  }

  predicate HasSpecial(p: string, special: char -> bool) {
    exists i :: 0 <= i < |p| && special(p[i])
  }

  /** Every character of the narrow class is in the broad one. */
  lemma NarrowWithinBroad(c: char)
    requires NarrowSpecial(c)
    ensures BroadSpecial(c)
  {
  }

  /** No letter, digit or `_` is in the narrow class. */
  lemma WordCharNotNarrow(c: char)
    requires ('A' <= c <= 'Z') || ('a' <= c <= 'z') || IsDigit(c) || c == '_'
    ensures !NarrowSpecial(c)
  {
  }

  /** `_` is special for the registration schema, but not for the
      handlers. */
  lemma UnderscoreOnlyBroad()
    ensures BroadSpecial('_') && !NarrowSpecial('_')
  {
  }

  /** The four rules with the narrow class: a length of at least eight
      (UTF-16 code units, as both `length` and Joi's `min` count), an
      upper-case letter, a digit and a special character. */
  predicate StrongPassword(p: string) {
    Utf16Length(p) >= 8 && HasUpper(p) && HasDigit(p) && HasSpecial(p, NarrowSpecial)
  }

  /** The password rules of `RegistrarUsuarioDTO`. */
  predicate RegisterPassword(p: string) {
    Utf16Length(p) >= 8 && HasUpper(p) && HasDigit(p) && HasSpecial(p, BroadSpecial)
  }

  /** A password strong for the handlers passes the registration schema. */
  lemma StrongIsRegisterPassword(p: string)
    requires StrongPassword(p)
    ensures RegisterPassword(p)
  {
    var i :| 0 <= i < |p| && NarrowSpecial(p[i]);
    NarrowWithinBroad(p[i]);
  }

  // ---------------------------------------------------------------- validarContrasena

  const TooShort := "Debe tener al menos 8 caracteres"
  const NoUpper := "Debe contener al menos 1 mayúscula"
  const NoDigit := "Debe contener al menos 1 número"
  const NoSpecial := "Debe contener al menos 1 carácter especial"

  /** The rule messages in the order they are checked. */
  const RuleMessages: seq<string> := [TooShort, NoUpper, NoDigit, NoSpecial]

  /** Whether the rule of message `m` fails for `p`. */
  predicate MessageFails(p: string, m: string) {
    || (m == TooShort && Utf16Length(p) < 8)
    || (m == NoUpper && !HasUpper(p))
    || (m == NoDigit && !HasDigit(p))
    || (m == NoSpecial && !HasSpecial(p, NarrowSpecial))
  }

  /** The `errores` list of `validarContrasena`, one push per failed rule. */
  function PasswordErrors(p: string): (r: seq<string>)
    ensures |r| == 0 <==> StrongPassword(p)
    ensures forall m :: m in r <==> m in RuleMessages && MessageFails(p, m)
  {
    (if Utf16Length(p) < 8 then [TooShort] else []) + (if !HasUpper(p) then [NoUpper] else [])
    + (if !HasDigit(p) then [NoDigit] else []) + (if !HasSpecial(p, NarrowSpecial) then [NoSpecial] else [])
  }

  /** The three pattern rules of `validarContrasena`, which test the text
      of any value. */
  function PatternErrors(t: string): seq<string> {
    (if !HasUpper(t) then [NoUpper] else []) + (if !HasDigit(t) then [NoDigit] else [])
    + (if !HasSpecial(t, NarrowSpecial) then [NoSpecial] else [])
  }

  /** The rule list is the length rule followed by the pattern rules. */
  lemma PasswordErrorsSplit(p: string)
    ensures PasswordErrors(p) == (if Utf16Length(p) < 8 then [TooShort] else []) + PatternErrors(p)
  {
  }

  /** The list is the rule messages, in their order, of the rules that
      fail. */
  lemma PasswordErrorsInOrder(p: string)
    ensures PasswordErrors(p) == Filter(RuleMessages, (m: string) => MessageFails(p, m))
  {
    var keep := (m: string) => MessageFails(p, m);
    var rm := RuleMessages;
    assert rm[..3] == [TooShort, NoUpper, NoDigit];
    assert rm[..3][..2] == [TooShort, NoUpper];
    assert rm[..3][..2][..1] == [TooShort];
    assert [TooShort][..0] == [];
    assert Filter([TooShort], keep) == (if Utf16Length(p) < 8 then [TooShort] else []);
    assert Filter([TooShort, NoUpper], keep)
        == (if Utf16Length(p) < 8 then [TooShort] else []) + (if !HasUpper(p) then [NoUpper] else []);
  }

  /** `validarContrasena`: the error it throws, if any, is the failed
      rules' messages joined by commas. */
  function ValidarContrasena(p: string): (r: Option<string>)
    ensures r.None? <==> StrongPassword(p)
    ensures r.Some? ==> r.value == JoinComma(PasswordErrors(p))
  {
    var errores := PasswordErrors(p);
    if |errores| > 0 then Some(JoinComma(errores)) else None
  }

  /** A password missing only a special character is refused with that
      one message. */
  lemma OnlySpecialMissing(p: string)
    requires Utf16Length(p) >= 8 && HasUpper(p) && HasDigit(p) && !HasSpecial(p, NarrowSpecial)
    ensures ValidarContrasena(p) == Some(NoSpecial)
  {
    assert PasswordErrors(p) == [] + [] + [] + [NoSpecial];
  }

  /** `Abcdefg1_` passes the registration schema and is then refused by the
      handler for lack of a special character. */
  lemma UnderscorePasswordGap()
    ensures RegisterPassword("Abcdefg1_")
    ensures ValidarContrasena("Abcdefg1_") == Some(NoSpecial)
  {
    var p := "Abcdefg1_";
    BmpLength(p);
    assert IsUpperAscii(p[0]) && IsDigit(p[7]) && BroadSpecial(p[8]);
    forall i | 0 <= i < |p| ensures !NarrowSpecial(p[i]) {
      WordCharNotNarrow(p[i]);
    }
    OnlySpecialMissing(p);
  }

  /** Length is counted in code units: six characters, two of them
      outside the Basic Multilingual Plane, make a long enough password. */
  lemma AstralPasswordLength()
    ensures |"Aa1!\U{1F600}\U{1F600}"| == 6
    ensures Utf16Length("Aa1!\U{1F600}\U{1F600}") == 8
    ensures ValidarContrasena("Aa1!\U{1F600}\U{1F600}") == None
  {
    var p := "Aa1!\U{1F600}\U{1F600}";
    BmpLength(p[..4]);
    assert p == p[..4] + p[4..];
    Utf16Append(p[..4], p[4..]);
    assert p[4..][..1] == [p[4]];
    assert IsUpperAscii(p[0]) && IsDigit(p[2]) && NarrowSpecial(p[3]);
  }

  // ---------------------------------------------------------------- phone and code

  /** `^[0-9]{10}$`: a registration phone of `length(10)` matching
      `^[0-9]+$`, and the same as `^\d{10}$` of the phone update. */
  predicate PhoneOk(s: string) {
    |s| == 10 && AllDigits(s)
  }

  /** The registration handler's own phone check rejects nothing the
      schema accepts: `length !== 10 || !/^\d+$/.test(...)`. */
  function HandlerPhoneRejects(s: string): (r: bool)
    ensures r <==> !PhoneOk(s)
  {
    |s| != 10 || !(|s| > 0 && AllDigits(s))
  }

  /** `VerificarCodigoDTO`: exactly six digits. */
  predicate CodeOk(s: string) {
    |s| == 6 && AllDigits(s)
  }

  function Pow10(k: nat): (p: nat)
    ensures p > 0
  {
    if k == 0 then 1 else 10 * Pow10(k - 1)
  }

  /** A number with `k` digits is written with `k` characters. */
  lemma {:induction false} DecimalLength(n: nat, k: nat)
    requires k > 0 && Pow10(k - 1) <= n < Pow10(k)
    ensures |Decimal(n)| == k
    decreases k
  {
    if n >= 10 {
      DecimalLength(n / 10, k - 1);
    }
  }

  /** Every code `Math.floor(100000 + Math.random() * 900000).toString()`
      can produce is one the recovery-code schema accepts. */
  lemma GeneratedCodeAccepted(n: nat)
    requires 100000 <= n <= 999999
    ensures CodeOk(Decimal(n))
  {
    assert Pow10(5) == 100000 && Pow10(6) == 1000000;
    DecimalLength(n, 6);
  }

  // ---------------------------------------------------------------- the schemas

  /** A Joi string field with its rule: present, a string, not empty. */
  predicate StringWith(v: JsVal, rule: string -> bool) {
    v.Str? && v.s != "" && rule(v.s)
  }

  /** `RegistrarUsuarioDTO`; `isEmail` stands for Joi's `email()`. */
  predicate RegisterSchema(email: JsVal, contrasena: JsVal, telefono: JsVal, isEmail: string -> bool) {
    && StringWith(email, isEmail)
    && StringWith(contrasena, RegisterPassword)
    && StringWith(telefono, PhoneOk)
  }

  /** `RestablecerContrasenaDTO` and `ActualizarContrasenaDTO`: a strong new
      password and an identical confirmation (plus the token, for the
      reset). */
  predicate ChangeSchema(nueva: JsVal, confirmar: JsVal) {
    StringWith(nueva, StrongPassword) && confirmar == nueva
  }

  /** The registration schema's phone passes the handler's check. */
  lemma RegisterPhonePassesHandler(email: JsVal, contrasena: JsVal, telefono: JsVal, isEmail: string -> bool)
    requires RegisterSchema(email, contrasena, telefono, isEmail)
    ensures !HandlerPhoneRejects(telefono.s)
  {
  }
}
