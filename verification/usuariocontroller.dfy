/** The user handlers of `usuario.controller.js` that guard registration,
    password reset and account deletion. A request's fields are JavaScript
    values; the store calls a handler makes are those of the service it
    calls. */
module UsuarioController {
  import opened Basics
  import opened Js
  import opened UsuarioDtos
  import opened UsuarioService

  /** What a handler does with the request. */
  datatype Reply =
    | Done(status: int, calls: seq<Call>)   // a success answer, after these store calls
    | Failed(status: int, error: string)    // `res.status(status).json({ error })`
    | JoiFailed                             // 400 with the schema's first message
    | Forwarded(error: string)              // `next(error)`, to the application's error handler

  const PhoneTenNumbers := "El teléfono debe tener exactamente 10 números"
  const InvalidSession := "Sesión inválida. Verifica el código primero."
  /** The TypeError of reading `length` of `undefined` or `null`. */
  const CannotRead := "Cannot read properties of "
  const UndefinedLength := CannotRead + "undefined (reading 'length')"
  const NullLength := CannotRead + "null (reading 'length')"
  const NotAuthenticated := "No autenticado o token inválido"
  const InvalidEmailData := "Datos de correo electrónico no válidos"
  const EmailMismatch := "No puedes eliminar esta cuenta: el correo no coincide con tu sesión."

  // ---------------------------------------------------------------- registration

  /** What the handler makes of the service's answer. */
  function Registered(r: Result<Call, string>): (reply: Reply)
    ensures reply.Done? <==> r.Ok?
  {
    match r
    case Err(m) => Forwarded(m)
    case Ok(c) => Done(201, [c])
  }

  /** `registrarUsuario`: the schema, then the handler's password rules,
      then its own phone check, then the service with the hashed
      password. */
  function Registrar(users: map<string, User>, email: JsVal, contrasena: JsVal, telefono: JsVal,
                     isEmail: string -> bool, hash: string -> string): (r: Reply)
    ensures r == JoiFailed <==> !RegisterSchema(email, contrasena, telefono, isEmail)
    ensures RegisterSchema(email, contrasena, telefono, isEmail) && !StrongPassword(contrasena.s)
            ==> r == Forwarded(JoinComma(PasswordErrors(contrasena.s)))
    ensures RegisterSchema(email, contrasena, telefono, isEmail) && StrongPassword(contrasena.s)
            ==> r == Registered(RegistrarUsuario(users, email.s, hash(contrasena.s), telefono.s))
    ensures r.Done? <==> RegisterSchema(email, contrasena, telefono, isEmail) && StrongPassword(contrasena.s)
                         && email.s !in users
    ensures r.Done? ==> r == Done(201, [Register(email.s, hash(contrasena.s), telefono.s)])
  {
    if !RegisterSchema(email, contrasena, telefono, isEmail) then JoiFailed
    else
      match ValidarContrasena(contrasena.s)
      case Some(m) => Forwarded(m)
      case None =>
        if HandlerPhoneRejects(telefono.s) then Forwarded(PhoneTenNumbers)
        else Registered(RegistrarUsuario(users, email.s, hash(contrasena.s), telefono.s))
  }

  /** The handler never answers with its own phone message: every phone
      the schema lets through passes that check. */
  lemma RegistrationPhoneMessageUnused(users: map<string, User>, email: JsVal, contrasena: JsVal, telefono: JsVal,
                                       isEmail: string -> bool, hash: string -> string)
    requires RegisterSchema(email, contrasena, telefono, isEmail)
    ensures PhoneOk(telefono.s) && !HandlerPhoneRejects(telefono.s)
    ensures Registrar(users, email, contrasena, telefono, isEmail, hash)
            == match ValidarContrasena(contrasena.s)
               case Some(m) => Forwarded(m)
               case None => Registered(RegistrarUsuario(users, email.s, hash(contrasena.s), telefono.s))
  {
    RegisterPhonePassesHandler(email, contrasena, telefono, isEmail);
  }

  /** A password with `_` as its only special character gets through the
      schema and is then refused by the handler. */
  lemma UnderscorePasswordForwarded(users: map<string, User>, email: JsVal, telefono: JsVal,
                                    isEmail: string -> bool, hash: string -> string)
    requires StringWith(email, isEmail) && StringWith(telefono, PhoneOk)
    ensures Registrar(users, email, Str("Abcdefg1_"), telefono, isEmail, hash) == Forwarded(NoSpecial)
  {
    UnderscorePasswordGap();
  }

  // ---------------------------------------------------------------- password reset

  /** `token_recuperacion` of the session is truthy. */
  predicate SessionOk(code: Option<string>) {
    code.Some? && code.value != ""
  }

  /** `validarContrasena` on whatever the body holds. Reading `length` of
      `undefined` or `null` throws a TypeError. A number, a boolean or a
      plain object has no `length`, and `undefined < 8` is false, so only
      the three pattern rules run, on the value's text. */
  function ValidarContrasenaValue(v: JsVal): (r: Option<string>)
    ensures v.Str? ==> r == ValidarContrasena(v.s)
    ensures v.Undefined? ==> r == Some(UndefinedLength)
    ensures v.Null? ==> r == Some(NullLength)
    ensures v.Num? ==> r == Some(NoUpper + ", " + NoSpecial)
    ensures v.Bool? ==> r == Some(NoUpper + ", " + NoDigit + ", " + NoSpecial)
    ensures v.Obj? ==> r == Some(NoDigit + ", " + NoSpecial)
    ensures r.None? <==> v.Str? && StrongPassword(v.s)
  {
    match v
    case Undefined => Some(UndefinedLength)
    case Null => Some(NullLength)
    case Str(s) => ValidarContrasena(s)
    case _ =>
      ValueTextRules(v);
      var errores := PatternErrors(JsText(v));
      JoinThree(NoUpper, NoDigit, NoSpecial);
      if |errores| > 0 then Some(JoinComma(errores)) else None
  }

  lemma JoinThree(a: string, b: string, c: string)
    ensures JoinComma([a, b, c]) == a + ", " + b + ", " + c
  {
    assert [a, b, c][..2] == [a, b];
    assert [a, b][..1] == [a];
  }

  /** Which pattern rules the text of a number, a boolean and a plain
      object meets: a number has digits only, `true` and `false` have
      lower-case letters only, `[object Object]` has one capital. */
  lemma ValueTextRules(v: JsVal)
    requires v.Num? || v.Bool? || v.Obj?
    ensures v.Num? ==> PatternErrors(JsText(v)) == [NoUpper, NoSpecial]
    ensures v.Bool? ==> PatternErrors(JsText(v)) == [NoUpper, NoDigit, NoSpecial]
    ensures v.Obj? ==> PatternErrors(JsText(v)) == [NoDigit, NoSpecial]
  {
    match v
    case Num(n) => NumberTextRules(n);
    case Bool(b) => LowerTextRules(JsText(v));
    case Obj => ObjectTextRules();
  }

  lemma NumberTextRules(n: int)
    ensures HasDigit(NumberText(n)) && !HasUpper(NumberText(n)) && !HasSpecial(NumberText(n), NarrowSpecial)
  {
    var t := NumberText(n);
    assert IsDigit(t[|t| - 1]);
    forall i | 0 <= i < |t| ensures !IsUpperAscii(t[i]) && !NarrowSpecial(t[i]) {
      assert IsDigit(t[i]) || t[i] == '-';
    }
  }

  lemma LowerTextRules(t: string)
    requires t == "true" || t == "false"
    ensures !HasDigit(t) && !HasUpper(t) && !HasSpecial(t, NarrowSpecial)
  {
    assert forall i :: 0 <= i < |t| ==> 'a' <= t[i] <= 'z';
    forall i | 0 <= i < |t| ensures !IsUpperAscii(t[i]) && !IsDigit(t[i]) && !NarrowSpecial(t[i]) {
      assert 'a' <= t[i] <= 'z';
    }
  }

  predicate ObjectTextChar(c: char) {
    c == ' ' || c == '[' || c == ']' || c == 'O' || 'a' <= c <= 'z'
  }

  lemma ObjectTextRules()
    ensures HasUpper("[object Object]") && !HasDigit("[object Object]")
    ensures !HasSpecial("[object Object]", NarrowSpecial)
  {
    var t := "[object Object]";
    assert IsUpperAscii(t[8]);
    assert forall i :: 0 <= i < |t| ==> ObjectTextChar(t[i]);
    forall i | 0 <= i < |t| ensures !IsDigit(t[i]) && !NarrowSpecial(t[i]) {
      assert ObjectTextChar(t[i]);
    }
  }

  /** `restablecerContrasena`. `code` is the session's recovery code;
      `nueva` and `confirmar` are `nuevaContrasena` and
      `confirmarContrasena` of the body, of any `JsVal` kind, since no
      schema checks them; arrays and fractional numbers are outside
      `JsVal` (see "Request values" in README.md). Every failure is a 400
      with the error's message. */
  function Restablecer(code: Option<string>, nueva: JsVal, confirmar: JsVal, hash: string -> string)
    : (r: Reply)
    ensures r == Failed(400, InvalidSession) <==> !SessionOk(code)
    ensures SessionOk(code) && nueva.Undefined? ==> r == Failed(400, UndefinedLength)
    ensures SessionOk(code) && nueva.Null? ==> r == Failed(400, NullLength)
    ensures SessionOk(code) && nueva.Num? ==> r == Failed(400, NoUpper + ", " + NoSpecial)
    ensures SessionOk(code) && !nueva.Str? ==> r == Failed(400, ValidarContrasenaValue(nueva).value)
    ensures SessionOk(code) && nueva.Str? && !StrongPassword(nueva.s)
            ==> r == Failed(400, JoinComma(PasswordErrors(nueva.s)))
    ensures SessionOk(code) && nueva.Str? && StrongPassword(nueva.s) && confirmar != nueva
            ==> r == Failed(400, PasswordsDiffer)
    ensures r.Done? <==> SessionOk(code) && nueva.Str? && StrongPassword(nueva.s) && confirmar == nueva
    ensures r.Done? ==> r == Done(200, RestablecerContrasena(hash(nueva.s), code.value))
    ensures r.Failed? ==> r.status == 400
    ensures r.Done? || r.Failed?
  {
    if !(code.Some? && code.value != "") then Failed(400, InvalidSession)
    else
      match ValidarContrasenaValue(nueva)
      case Some(m) =>
        ValueErrorLead(nueva);
        Failed(400, m)
      case None =>
        if confirmar != nueva then Failed(400, PasswordsDiffer)
        else Done(200, RestablecerContrasena(hash(nueva.s), code.value))
  }

  /** No message `validarContrasena` throws reads as the session message. */
  lemma ValueErrorLead(v: JsVal)
    requires ValidarContrasenaValue(v).Some?
    ensures ValidarContrasenaValue(v).value != InvalidSession
  {
    var m := ValidarContrasenaValue(v).value;
    assert InvalidSession[0] == 'S';
    if v.Str? {
      PasswordErrorsLead(v.s);
    } else {
      assert UndefinedLength[0] == 'C';
      assert NullLength[0] == 'C';
      assert NoUpper[0] == NoDigit[0] == 'D';
      assert m[0] == 'C' || m[0] == 'D';
    }
  }

  /** The password rules come before the confirmation: a weak password
      gets the same answer whatever the confirmation says. */
  lemma WeakPasswordBeforeMismatch(code: Option<string>, nueva: string, c1: JsVal, c2: JsVal,
                                   hash: string -> string)
    requires SessionOk(code) && !StrongPassword(nueva)
    ensures Restablecer(code, Str(nueva), c1, hash) == Restablecer(code, Str(nueva), c2, hash)
    ensures Restablecer(code, Str(nueva), c1, hash).error != PasswordsDiffer
  {
    PasswordErrorsLead(nueva);
  }

  /** A rule-error list begins with a `D`, so it never reads as the
      session or the mismatch message. */
  lemma PasswordErrorsLead(p: string)
    requires !StrongPassword(p)
    ensures var m := JoinComma(PasswordErrors(p));
      |m| > 0 && m[0] == 'D' && m != InvalidSession && m != PasswordsDiffer
  {
    var e := PasswordErrors(p);
    assert |e| > 0;
    assert e[0] in RuleMessages;
    assert InvalidSession[0] == 'S' && PasswordsDiffer[0] == 'L';
    assert TooShort[0] == NoUpper[0] == NoDigit[0] == NoSpecial[0] == 'D';
    JoinCommaStartsWithFirst(e);
    assert JoinComma(e)[0] == e[0][0];
  }

  /** A joined list begins with its first part. */
  lemma {:induction false} JoinCommaStartsWithFirst(parts: seq<string>)
    requires |parts| > 0
    ensures |JoinComma(parts)| >= |parts[0]| && JoinComma(parts)[..|parts[0]|] == parts[0]
    decreases |parts|
  {
    if |parts| > 1 {
      JoinCommaStartsWithFirst(parts[..|parts| - 1]);
    }
  }

  // ---------------------------------------------------------------- account deletion

  /** `email?.trim()?.toLowerCase()`. */
  function Normalised(email: string): (r: string)
    ensures |r| <= |email|
  {
    Lower(Trim(email))
  }

  /** `EliminarUsuarioDTO`: an e-mail and a password of at least eight
      characters, both non-empty strings. */
  predicate DeletionSchema(email: JsVal, contrasena: JsVal, isEmail: string -> bool) {
    StringWith(email, isEmail) && StringWith(contrasena, (p: string) => Utf16Length(p) >= 8)
  }

  /** What the handler makes of the service's answer: any error is a 400. */
  function Deletion(r: Result<Call, string>): (reply: Reply)
    ensures reply.Done? <==> r.Ok?
  {
    match r
    case Err(m) => Failed(400, m)
    case Ok(c) => Done(200, [c])
  }

  /** `eliminarUsuario`. `session` is the e-mail of the authenticated user,
      when there is one. The service is called with the body's e-mail as
      sent, not with its normalised form. */
  function Eliminar(users: map<string, User>, session: Option<string>, email: JsVal, contrasena: JsVal,
                    isEmail: string -> bool, compare: (string, string) -> bool): (r: Reply)
    ensures r == Failed(401, NotAuthenticated) <==> session.None? || session.value == ""
    ensures r == JoiFailed <==> session.Some? && session.value != "" && !DeletionSchema(email, contrasena, isEmail)
    ensures r == Failed(400, InvalidEmailData)
            <== session.Some? && session.value != "" && DeletionSchema(email, contrasena, isEmail)
                && (Normalised(session.value) == "" || Normalised(email.s) == "")
    ensures r.Failed? && r.status == 403
            <==> && session.Some? && session.value != "" && DeletionSchema(email, contrasena, isEmail)
                 && Normalised(session.value) != "" && Normalised(email.s) != ""
                 && Normalised(session.value) != Normalised(email.s)
    ensures r.Done? ==> && DeletionSchema(email, contrasena, isEmail)
                        && session.Some? && Normalised(session.value) == Normalised(email.s) != ""
                        && r == Done(200, [DeleteAccount(email.s)])
                        && AuthenticateUsuario(users, email.s, contrasena.s, compare).Ok?
  {
    if session.None? || session.value == "" then Failed(401, NotAuthenticated)
    else if !DeletionSchema(email, contrasena, isEmail) then JoiFailed
    else
      var emailToken := Normalised(session.value);
      var emailBody := Normalised(email.s);
      if emailToken == "" || emailBody == "" then Failed(400, InvalidEmailData)
      else if emailToken != emailBody then Failed(403, EmailMismatch)
      else Deletion(EliminarUsuario(users, email.s, contrasena.s, compare))
  }

  /** The session's e-mail matters only through its normalised form: two
      sessions whose e-mails differ in case or surrounding white space get
      the same answer. */
  lemma SessionEmailNormalised(users: map<string, User>, s1: string, s2: string, email: JsVal, contrasena: JsVal,
                               isEmail: string -> bool, compare: (string, string) -> bool)
    requires s1 != "" && s2 != "" && Normalised(s1) == Normalised(s2)
    ensures Eliminar(users, Some(s1), email, contrasena, isEmail, compare)
            == Eliminar(users, Some(s2), email, contrasena, isEmail, compare)
  {
  }

  /** A session e-mail of white space only is truthy, so it passes the
      authentication check, and is then refused as empty. */
  lemma BlankSessionEmailRefused(users: map<string, User>, session: string, email: JsVal, contrasena: JsVal,
                                 isEmail: string -> bool, compare: (string, string) -> bool)
    requires session != "" && forall i :: 0 <= i < |session| ==> IsSpace(session[i])
    requires DeletionSchema(email, contrasena, isEmail)
    ensures Eliminar(users, Some(session), email, contrasena, isEmail, compare) == Failed(400, InvalidEmailData)
  {
    BlankTrimmed(session);
  }

  /** A matching request deletes exactly the account of the e-mail as the
      body spells it, once that account exists and the password matches;
      the service's errors come back as 400. */
  lemma MatchingRequestReachesService(users: map<string, User>, session: string, email: JsVal, contrasena: JsVal,
                                      isEmail: string -> bool, compare: (string, string) -> bool)
    requires session != "" && DeletionSchema(email, contrasena, isEmail)
    requires Normalised(session) == Normalised(email.s) != ""
    ensures var r := Eliminar(users, Some(session), email, contrasena, isEmail, compare);
      && (email.s !in users ==> r == Failed(400, UserNotFound))
      && (email.s in users && !compare(contrasena.s, users[email.s].hash) ==> r == Failed(400, WrongPassword))
      && (r.Done? <==> email.s in users && compare(contrasena.s, users[email.s].hash))
  {
  }
}
