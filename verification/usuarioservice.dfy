/** The checks `usuario.service.js` makes before it touches the user table.
    The table is seen through a lookup by e-mail (and by id); a write is
    the store call the service issues, so a rejected request is one that
    issues none. `bcrypt.compare` and `bcrypt.hash` are parameters. */
module UsuarioService {
  import opened Basics
  import opened Js
  import opened UsuarioDtos

  datatype User = User(id: int, email: string, hash: string, telefono: string)

  /** The store calls the service can make. */
  datatype Call = Register(email: string, hash: string, telefono: string)
                | UpdatePhone(id: int, telefono: string)
                | UpdatePassword(id: int, hash: string)
                | DeleteAccount(email: string)
                | ResetPassword(hash: string, code: string)
                | DropCode(code: string)

  const EmailTaken := "El correo ya está registrado"
  const UserNotFound := "Usuario no encontrado"
  const BadCredentials := "Credenciales inválidas"
  const PhoneDigits := "El teléfono debe tener exactamente 10 dígitos"
  const PasswordsDiffer := "Las contraseñas no coinciden"
  const WrongPassword := "Contraseña incorrecta"
  /** The service's refusal of a row that carries no e-mail. */
  const InvalidCode := "Código inválido o expirado"
  /** The model layer's refusal when no row holds the code in force. */
  const CodeNotFound := "Código incorrecto o expirado"

  /** `registrarUsuario`: an e-mail already registered is refused. */
  function RegistrarUsuario(users: map<string, User>, email: string, hash: string, telefono: string)
    : (r: Result<Call, string>)
    ensures r.Err? <==> email in users
    ensures r.Err? ==> r.error == EmailTaken
    ensures r.Ok? ==> r.value == Register(email, hash, telefono)
  {
    if email in users then Err(EmailTaken) else Ok(Register(email, hash, telefono))
  }

  /** The table after a registration, the new row numbered `nextId`. */
  function Registered(users: map<string, User>, c: Call, nextId: int): map<string, User>
    requires c.Register?
  {
    users[c.email := User(nextId, c.email, c.hash, c.telefono)]
  }

  /** Registering the same e-mail twice fails the second time, whatever
      the password and phone. */
  lemma RegisterTwiceRefused(users: map<string, User>, email: string, hash: string, telefono: string,
                             nextId: int, hash2: string, telefono2: string)
    requires RegistrarUsuario(users, email, hash, telefono).Ok?
    ensures var after := Registered(users, RegistrarUsuario(users, email, hash, telefono).value, nextId);
      && after[email] == User(nextId, email, hash, telefono)
      && RegistrarUsuario(after, email, hash2, telefono2) == Err(EmailTaken)
  {
  }

  /** `authenticateUsuario`: the e-mail is looked up before the password
      is compared. */
  function AuthenticateUsuario(users: map<string, User>, email: string, contrasena: string,
                               compare: (string, string) -> bool): (r: Result<User, string>)
    ensures email !in users <==> r == Err(UserNotFound)
    ensures email in users && !compare(contrasena, users[email].hash) <==> r == Err(BadCredentials)
    ensures r.Ok? <==> email in users && compare(contrasena, users[email].hash)
    ensures r.Ok? ==> r.value == users[email]
  {
    if email !in users then Err(UserNotFound)
    else if !compare(contrasena, users[email].hash) then Err(BadCredentials)
    else Ok(users[email])
  }

  /** An unknown e-mail is reported as unknown whatever the password
      comparison would say. */
  lemma UnknownBeforeCredentials(users: map<string, User>, email: string, contrasena: string,
                                 c1: (string, string) -> bool, c2: (string, string) -> bool)
    requires email !in users
    ensures AuthenticateUsuario(users, email, contrasena, c1) == AuthenticateUsuario(users, email, contrasena, c2)
  {
  }

  /** `verificarCodigo`: `codes` maps each recovery code still in force to
      the e-mail it was issued for. A code missing there is refused by the
      model layer's query, with its own message; a code whose row has an
      empty e-mail passes the query and is refused by the service. */
  function VerificarCodigo(codes: map<string, string>, code: string): (r: Result<string, string>)
    ensures code !in codes <==> r == Err(CodeNotFound)
    ensures code in codes && codes[code] == "" <==> r == Err(InvalidCode)
    ensures r.Ok? <==> code in codes && codes[code] != ""
    ensures r.Ok? ==> r.value == codes[code]
  {
    if code !in codes then Err(CodeNotFound)
    else if codes[code] == "" then Err(InvalidCode)
    else Ok(codes[code])
  }

  /** `restablecerContrasena`: the new hash is stored under the code, and
      only then is the code withdrawn. */
  function RestablecerContrasena(hash: string, code: string): (r: seq<Call>)
    ensures |r| == 2 && r[0].ResetPassword? && r[1].DropCode?
    ensures r[0].hash == hash && r[0].code == code && r[1].code == code
  {
    [ResetPassword(hash, code), DropCode(code)]
  }

  /** `actualizarTelefono`: anything but ten digits is refused before the
      store is called. */
  function ActualizarTelefono(id: int, telefono: string): (r: Result<Call, string>)
    ensures r.Ok? <==> PhoneOk(telefono)
    ensures r.Err? ==> r.error == PhoneDigits
    ensures r.Ok? ==> r.value == UpdatePhone(id, telefono)
  {
    if !(|telefono| == 10 && AllDigits(telefono)) then Err(PhoneDigits) else Ok(UpdatePhone(id, telefono))
  }

  /** `verificarContrasena`: whether the password matches the stored
      hash, once the user exists. */
  function VerificarContrasena(byId: map<int, User>, id: int, contrasena: string,
                               compare: (string, string) -> bool): (r: Result<bool, string>)
    ensures r.Err? <==> id !in byId
    ensures r.Ok? ==> r.value == compare(contrasena, byId[id].hash)
  {
    if id !in byId then Err(UserNotFound) else Ok(compare(contrasena, byId[id].hash))
  }

  /** `actualizarContrasena`: differing passwords are refused before any
      hashing; otherwise the hash of the new password is stored. */
  function ActualizarContrasena(id: int, nueva: string, confirmar: string, hash: string -> string)
    : (r: Result<Call, string>)
    ensures r.Err? <==> nueva != confirmar
    ensures r.Err? ==> r.error == PasswordsDiffer
    ensures r.Ok? ==> r.value == UpdatePassword(id, hash(nueva))
  {
    if nueva != confirmar then Err(PasswordsDiffer) else Ok(UpdatePassword(id, hash(nueva)))
  }

  /** `eliminarUsuario`: the same existence-then-password check as the
      login, then the deletion of exactly that e-mail's account. */
  function EliminarUsuario(users: map<string, User>, email: string, contrasena: string,
                           compare: (string, string) -> bool): (r: Result<Call, string>)
    ensures email !in users <==> r == Err(UserNotFound)
    ensures r.Ok? <==> AuthenticateUsuario(users, email, contrasena, compare).Ok?
    ensures r.Ok? ==> r.value == DeleteAccount(email)
    ensures r.Err? && email in users ==> r.error == WrongPassword
  {
    if email !in users then Err(UserNotFound)
    else if !compare(contrasena, users[email].hash) then Err(WrongPassword)
    else Ok(DeleteAccount(email))
  }

  /** The table after a deletion: that account gone, every other one
      kept. */
  function Deleted(users: map<string, User>, c: Call): (r: map<string, User>)
    requires c.DeleteAccount?
    ensures c.email !in r
    ensures forall e :: e in users && e != c.email ==> e in r && r[e] == users[e]
  {
    users - {c.email}
  }

  // ---------------------------------------------------------------- what the calls do

  /** The user table by e-mail and the recovery codes in force, each with
      the e-mail it was issued for. */
  datatype Accounts = Accounts(users: map<string, User>, codes: map<string, string>)

  /** The effect of a recovery call as the service means it:
      `ResetPassword` gives the code's user the hash it carries, `DropCode`
      withdraws the code. The model layer as written does neither; see
      `RecoveryAsWritten`. */
  function ApplyRecovery(a: Accounts, c: Call): (r: Accounts)
    requires c.ResetPassword? || c.DropCode?
    ensures c.DropCode? ==> r.users == a.users && r.codes == a.codes - {c.code}
    ensures c.ResetPassword? ==> r.codes == a.codes
  {
    match c
    case ResetPassword(h, code) =>
      if code in a.codes && a.codes[code] in a.users then
        var e := a.codes[code];
        a.(users := a.users[e := a.users[e].(hash := h)])
      else a
    case DropCode(code) => a.(codes := a.codes - {code})
  }

  /** A reset through a valid code gives its user the new hash, changes no
      other account, and withdraws the code: verifying the same code again
      finds no row, so a code works once. */
  lemma CodeWorksOnce(a: Accounts, h: string, code: string)
    requires VerificarCodigo(a.codes, code).Ok?
    requires a.codes[code] in a.users
    ensures var calls := RestablecerContrasena(h, code);
      var after := ApplyRecovery(ApplyRecovery(a, calls[0]), calls[1]);
      var e := VerificarCodigo(a.codes, code).value;
      && VerificarCodigo(after.codes, code) == Err(CodeNotFound)
      && e in after.users && after.users[e] == a.users[e].(hash := h)
      && (forall e' :: e' in a.users && e' != e ==> e' in after.users && after.users[e'] == a.users[e'])
      && after.users.Keys == a.users.Keys
  {
  }

  /** After the reset the user logs in with exactly the passwords the new
      hash accepts. */
  lemma ResetThenLogin(a: Accounts, h: string, code: string, contrasena: string,
                       compare: (string, string) -> bool)
    requires VerificarCodigo(a.codes, code).Ok?
    requires a.codes[code] in a.users
    ensures var calls := RestablecerContrasena(h, code);
      var after := ApplyRecovery(ApplyRecovery(a, calls[0]), calls[1]);
      AuthenticateUsuario(after.users, a.codes[code], contrasena, compare).Ok? <==> compare(contrasena, h)
  {
    CodeWorksOnce(a, h, code);
  }

  /** The check of the current password agrees with the login: for a user
      found by both id and e-mail, `verificarContrasena` answers true
      exactly when `authenticateUsuario` succeeds, and false exactly when
      the login fails on the credentials. */
  lemma VerificarAgreesWithLogin(users: map<string, User>, byId: map<int, User>, u: User, contrasena: string,
                                 compare: (string, string) -> bool)
    requires u.id in byId && byId[u.id] == u
    requires u.email in users && users[u.email] == u
    ensures VerificarContrasena(byId, u.id, contrasena, compare) == Ok(true)
            <==> AuthenticateUsuario(users, u.email, contrasena, compare).Ok?
    ensures VerificarContrasena(byId, u.id, contrasena, compare) == Ok(false)
            <==> AuthenticateUsuario(users, u.email, contrasena, compare) == Err(BadCredentials)
  {
  }

  /** The service's own check of the confirmation is never reached from the
      handler: a body `ActualizarContrasenaDTO` accepts always reaches the
      store with the hash of the new password, and a body whose two
      passwords differ is refused by that schema first. */
  lemma ChangeSchemaReachesStore(id: int, nueva: JsVal, confirmar: JsVal, hash: string -> string)
    ensures ChangeSchema(nueva, confirmar) ==>
      ActualizarContrasena(id, nueva.s, confirmar.s, hash) == Ok(UpdatePassword(id, hash(nueva.s)))
    ensures nueva.Str? && confirmar.Str? && nueva.s != confirmar.s ==>
      !ChangeSchema(nueva, confirmar) && ActualizarContrasena(id, nueva.s, confirmar.s, hash) == Err(PasswordsDiffer)
  {
  }

  // ---------------------------------------------------------------- the model layer as written

  /** The model layer's recovery calls as written. `restablecerContrasena`
      hashes the value it is given once more before storing it under the
      code, and `eliminarTokenRecuperacion` clears the code of the account
      whose e-mail it is given, while the service passes it the code. */
  function RecoveryAsWritten(a: Accounts, c: Call, hash: string -> string): (r: Accounts)
    requires c.ResetPassword? || c.DropCode?
    ensures c.ResetPassword? ==> r == ApplyRecovery(a, ResetPassword(hash(c.hash), c.code))
    ensures c.DropCode? ==> r.users == a.users
    ensures c.DropCode? ==> forall k :: k in r.codes <==> k in a.codes && a.codes[k] != c.code
  {
    match c
    case ResetPassword(h, code) => ApplyRecovery(a, ResetPassword(hash(h), code))
    case DropCode(arg) => a.(codes := map k | k in a.codes && a.codes[k] != arg :: a.codes[k])
  }

  /** The password the user chose no longer logs in after a reset: the
      handler hashes it, the model layer hashes that hash, and a comparison
      that accepts exactly the password a hash was made from (what
      `bcrypt.compare` promises) then accepts the first hash instead. */
  lemma ResetLocksOutAsWritten(a: Accounts, p: string, code: string,
                               hash: string -> string, compare: (string, string) -> bool)
    requires VerificarCodigo(a.codes, code).Ok? && a.codes[code] in a.users
    requires forall q, x :: compare(q, hash(x)) <==> q == x
    requires hash(p) != p
    ensures var calls := RestablecerContrasena(hash(p), code);
      var after := RecoveryAsWritten(RecoveryAsWritten(a, calls[0], hash), calls[1], hash);
      && AuthenticateUsuario(after.users, a.codes[code], p, compare) == Err(BadCredentials)
      && AuthenticateUsuario(after.users, a.codes[code], hash(p), compare).Ok?
  {
    var e := a.codes[code];
    var mid := ApplyRecovery(a, ResetPassword(hash(hash(p)), code));
    assert mid.users[e].hash == hash(hash(p));
    assert !compare(p, hash(hash(p)));
    assert compare(hash(p), hash(hash(p)));
  }

  /** With the model layer storing the hash it is given, the reset lets
      the user in with the chosen password and with no other. */
  lemma ResetPasswordLogsIn(a: Accounts, p: string, q: string, code: string,
                            hash: string -> string, compare: (string, string) -> bool)
    requires VerificarCodigo(a.codes, code).Ok? && a.codes[code] in a.users
    requires forall q', x :: compare(q', hash(x)) <==> q' == x
    ensures var calls := RestablecerContrasena(hash(p), code);
      var after := ApplyRecovery(ApplyRecovery(a, calls[0]), calls[1]);
      AuthenticateUsuario(after.users, a.codes[code], q, compare).Ok? <==> q == p
  {
    ResetThenLogin(a, hash(p), code, q, compare);
  }

  /** The code survives the reset: the service hands the code to a call
      that looks for an e-mail, and no e-mail equals a code, so the code
      stays in force and can be used again. */
  lemma CodeReusableAsWritten(a: Accounts, h: string, code: string, hash: string -> string)
    requires VerificarCodigo(a.codes, code).Ok?
    requires forall k :: k in a.codes ==> a.codes[k] != code
    ensures var calls := RestablecerContrasena(h, code);
      var after := RecoveryAsWritten(RecoveryAsWritten(a, calls[0], hash), calls[1], hash);
      VerificarCodigo(after.codes, code) == VerificarCodigo(a.codes, code)
  {
  }

  /** What `bcrypt.compare` rejects with when the password is missing. */
  const MissingArguments := "data and hash arguments required"

  /** The model layer's `eliminarUsuario(email, contrasena)`: it looks the
      account up and compares the password again before deleting it. The
      service passes only the e-mail, so the password is missing. */
  function DeleteInModel(users: map<string, User>, email: string, contrasena: Option<string>,
                         compare: (string, string) -> bool): (r: Result<map<string, User>, string>)
    ensures r.Ok? <==> email in users && contrasena.Some? && compare(contrasena.value, users[email].hash)
    ensures r.Ok? ==> r.value == Deleted(users, DeleteAccount(email))
    ensures email in users && contrasena.None? ==> r == Err(MissingArguments)
  {
    if email !in users then Err(UserNotFound)
    else if contrasena.None? then Err(MissingArguments)
    else if !compare(contrasena.value, users[email].hash) then Err(WrongPassword)
    else Ok(Deleted(users, DeleteAccount(email)))
  }

  /** As written, an account is never deleted: whenever the service's own
      check lets the request through, the model layer refuses it for the
      missing password and the table is left as it was. */
  lemma DeletionFailsAsWritten(users: map<string, User>, email: string, contrasena: string,
                               compare: (string, string) -> bool)
    requires EliminarUsuario(users, email, contrasena, compare).Ok?
    ensures DeleteInModel(users, email, None, compare) == Err(MissingArguments)
  {
  }

  /** With the password passed on, every request the service lets
      through deletes exactly that account. */
  lemma DeletionSucceedsCorrected(users: map<string, User>, email: string, contrasena: string,
                                  compare: (string, string) -> bool)
    requires EliminarUsuario(users, email, contrasena, compare).Ok?
    ensures DeleteInModel(users, email, Some(contrasena), compare)
            == Ok(Deleted(users, EliminarUsuario(users, email, contrasena, compare).value))
    ensures email !in Deleted(users, DeleteAccount(email))
  {
  }
}
