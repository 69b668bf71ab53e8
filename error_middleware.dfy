/**
 * The error middleware: which HTTP status and message an error gets, from
 * its name, its code and the status it carries, including the mapping of
 * LDAP result codes (section 4.1.9 and Appendix A of RFC 4511) to HTTP.
 */
module ErrorMiddleware {
  import opened JsValues

  /** The `code` of an error: absent, a number (an LDAP result code) or a
      string (a Node.js system error such as `ECONNREFUSED`). */
  datatype Code = NoCode | Num(n: int) | Text(t: string)

  predicate CodeTruthy(c: Code) {
    match c
    case NoCode => false
    case Num(n) => n != 0
    case Text(t) => t != ""
  }

  /** An error object.  `status` and `statusCode` are 0 when absent;
      `errors` is the field-to-message table of a validation error. */
  datatype Err = Err(name: string, message: string, status: int, statusCode: int,
                     code: Code, errors: Option<seq<(string, string)>>, details: Value)

  /** LDAP result codes the service names. */
  const InvalidCredentials := 49
  const InsufficientAccessRights := 50
  const NoSuchObject := 32
  const EntryAlreadyExists := 68
  const UnwillingToPerform := 53
  const OperationsError := 1
  const ServerDown := 81

  /** `mapLDAPErrorStatus`: five result codes have their own HTTP status;
      every other code, a string code and a missing one give 500. */
  function MapLDAPErrorStatus(code: Code): (status: int)
    ensures status in {400, 401, 403, 404, 409, 500}
    ensures status != 500 <==> code.Num? && code.n in {InvalidCredentials, InsufficientAccessRights, NoSuchObject, EntryAlreadyExists, UnwillingToPerform}
    ensures code == Num(InvalidCredentials) ==> status == 401
    ensures code == Num(InsufficientAccessRights) ==> status == 403
    ensures code == Num(NoSuchObject) ==> status == 404
    ensures code == Num(EntryAlreadyExists) ==> status == 409
    ensures code == Num(UnwillingToPerform) ==> status == 400
  {
    match code
    case Num(n) =>
      if n == InvalidCredentials then 401
      else if n == InsufficientAccessRights then 403
      else if n == NoSuchObject then 404
      else if n == EntryAlreadyExists then 409
      else if n == UnwillingToPerform then 400
      else 500
    case _ => 500
  }

  /** The codes `formatLDAPError` has a message of its own for. */
  predicate KnownLDAPCode(code: Code) {
    code.Num? && code.n in {InvalidCredentials, InsufficientAccessRights, NoSuchObject, EntryAlreadyExists,
                            UnwillingToPerform, OperationsError, ServerDown}
  }

  /** `formatLDAPError`: a fixed message for seven codes, otherwise the
      error's own message or a generic one. */
  function FormatLDAPError(code: Code, message: string): (m: string)
    ensures m != ""
    ensures !KnownLDAPCode(code) ==> m == if message != "" then message else "Error de LDAP"
    ensures code == Num(InvalidCredentials) ==> m == "Credenciales inválidas"
    ensures code == Num(InsufficientAccessRights) ==> m == "Permisos insuficientes"
    ensures code == Num(NoSuchObject) ==> m == "Objeto no encontrado"
    ensures code == Num(EntryAlreadyExists) ==> m == "El objeto ya existe"
    ensures code == Num(UnwillingToPerform) ==> m == "Operación no permitida"
    ensures code == Num(OperationsError) ==> m == "Error de operación LDAP"
    ensures code == Num(ServerDown) ==> m == "Error de conexión al servidor LDAP"
  {
    match code
    case Num(n) =>
      if n == InvalidCredentials then "Credenciales inválidas"
      else if n == InsufficientAccessRights then "Permisos insuficientes"
      else if n == NoSuchObject then "Objeto no encontrado"
      else if n == EntryAlreadyExists then "El objeto ya existe"
      else if n == UnwillingToPerform then "Operación no permitida"
      else if n == OperationsError then "Error de operación LDAP"
      else if n == ServerDown then "Error de conexión al servidor LDAP"
      else if message != "" then message else "Error de LDAP"
    case _ => if message != "" then message else "Error de LDAP"
  }

  /** Codes 1 and 81 have their own message but still answer 500: only the
      five mapped codes differ from 500, and the message of every known
      code is fixed. */
  lemma LDAPMessageWithoutStatus(message: string)
    ensures MapLDAPErrorStatus(Num(OperationsError)) == 500
    ensures MapLDAPErrorStatus(Num(ServerDown)) == 500
    ensures FormatLDAPError(Num(OperationsError), message) == "Error de operación LDAP"
    ensures forall c :: MapLDAPErrorStatus(c) != 500 ==> KnownLDAPCode(c)
  {
  }

  /** `formatMulterError`. */
  function FormatMulterError(code: Code): (m: string)
    ensures m in {"El archivo es demasiado grande", "Demasiados archivos", "Campo de archivo inesperado", "Error al procesar archivo"}
    ensures code == Text("LIMIT_FILE_SIZE") ==> m == "El archivo es demasiado grande"
    ensures code == Text("LIMIT_FILE_COUNT") ==> m == "Demasiados archivos"
    ensures code == Text("LIMIT_UNEXPECTED_FILE") ==> m == "Campo de archivo inesperado"
    ensures code !in {Text("LIMIT_FILE_SIZE"), Text("LIMIT_FILE_COUNT"), Text("LIMIT_UNEXPECTED_FILE")} ==> m == "Error al procesar archivo"
  {
    if code == Text("LIMIT_FILE_SIZE") then "El archivo es demasiado grande"
    else if code == Text("LIMIT_FILE_COUNT") then "Demasiados archivos"
    else if code == Text("LIMIT_UNEXPECTED_FILE") then "Campo de archivo inesperado"
    else "Error al procesar archivo"
  }

  datatype FieldError = FieldError(field: string, message: string)

  /** `formatValidationErrors`: one entry per field of `err.errors`, in its
      key order, none when there is no table. */
  function FormatValidationErrors(errors: Option<seq<(string, string)>>): (r: seq<FieldError>)
    ensures errors.None? ==> r == []
    ensures errors.Some? ==> |r| == |errors.value|
    ensures errors.Some? ==> forall i :: 0 <= i < |r| ==> r[i] == FieldError(errors.value[i].0, errors.value[i].1)
  {
    match errors
    case None => []
    case Some(es) => seq(|es|, i requires 0 <= i < |es| => FieldError(es[i].0, es[i].1))
  }

  /** What `errorHandler` answers with, apart from the rendering. */
  datatype Reply = Reply(status: int, message: string, details: Option<seq<FieldError>>)

  /** The error names with a status of their own. */
  const KnownNames := {"ValidationError", "CastError", "JsonWebTokenError", "TokenExpiredError",
                       "MulterError", "MongoError", "MongooseError", "LDAPError"}

  /** The status an error starts from: its `status`, else its
      `statusCode`, else 500. */
  function DefaultStatus(err: Err): (s: int)
    ensures s != 0
    ensures err.status != 0 ==> s == err.status
    ensures err.status == 0 && err.statusCode != 0 ==> s == err.statusCode
  {
    if err.status != 0 then err.status else if err.statusCode != 0 then err.statusCode else 500
  }

  /** The status and message selection of `errorHandler`. */
  function HandleError(err: Err): (r: Reply)
    ensures r.status != 0 && r.message != ""
    ensures r.details.Some? <==> err.name == "ValidationError"
    ensures err.name in {"ValidationError", "CastError", "MulterError"} ==> r.status == 400
    ensures err.name in {"JsonWebTokenError", "TokenExpiredError"} ==> r.status == 401
    ensures err.name in {"MongoError", "MongooseError"} ==> r.status == 500
    ensures err.name == "LDAPError" ==> r.status == MapLDAPErrorStatus(err.code) && r.message == FormatLDAPError(err.code, err.message)
    ensures err.name !in KnownNames ==>
      r.status == (if err.code in {Text("ENOTFOUND"), Text("ECONNREFUSED")} then 502
                   else if err.code == Text("ETIMEDOUT") then 504
                   else DefaultStatus(err))
    ensures err.name == "ValidationError" ==> r == Reply(400, "Datos de entrada inválidos", Some(FormatValidationErrors(err.errors)))
    ensures err.name == "CastError" ==> r == Reply(400, "Formato de datos inválido", None)
    ensures err.name == "JsonWebTokenError" ==> r == Reply(401, "Token inválido", None)
    ensures err.name == "TokenExpiredError" ==> r == Reply(401, "Token expirado", None)
    ensures err.name == "MulterError" ==> r == Reply(400, FormatMulterError(err.code), None)
    ensures err.name in {"MongoError", "MongooseError"} ==> r == Reply(500, "Error de base de datos", None)
    ensures err.name == "LDAPError" ==> r.details == None
    ensures err.name !in KnownNames && err.code == Text("ENOTFOUND") ==> r == Reply(502, "Servicio no disponible", None)
    ensures err.name !in KnownNames && err.code == Text("ECONNREFUSED") ==> r == Reply(502, "Conexión rechazada", None)
    ensures err.name !in KnownNames && err.code == Text("ETIMEDOUT") ==> r == Reply(504, "Tiempo de espera agotado", None)
    ensures err.name !in KnownNames && err.code !in {Text("ENOTFOUND"), Text("ECONNREFUSED"), Text("ETIMEDOUT")} ==>
      r == Reply(DefaultStatus(err), if err.message != "" then err.message else "Error interno del servidor", None)
  {
    var message := if err.message != "" then err.message else "Error interno del servidor";
    var status := DefaultStatus(err);
    if err.name == "ValidationError" then
      Reply(400, "Datos de entrada inválidos", Some(FormatValidationErrors(err.errors)))
    else if err.name == "CastError" then Reply(400, "Formato de datos inválido", None)
    else if err.name == "JsonWebTokenError" then Reply(401, "Token inválido", None)
    else if err.name == "TokenExpiredError" then Reply(401, "Token expirado", None)
    else if err.name == "MulterError" then Reply(400, FormatMulterError(err.code), None)
    else if err.name == "MongoError" || err.name == "MongooseError" then Reply(500, "Error de base de datos", None)
    else if err.name == "LDAPError" then Reply(MapLDAPErrorStatus(err.code), FormatLDAPError(err.code, err.message), None)
    else if CodeTruthy(err.code) && err.code == Text("ENOTFOUND") then Reply(502, "Servicio no disponible", None)
    else if CodeTruthy(err.code) && err.code == Text("ECONNREFUSED") then Reply(502, "Conexión rechazada", None)
    else if CodeTruthy(err.code) && err.code == Text("ETIMEDOUT") then Reply(504, "Tiempo de espera agotado", None)
    else Reply(status, message, None)
  }

  /** A recognised name other than `LDAPError` and `MulterError` decides
      the reply on its own: the code and the carried status do not matter. */
  lemma NameDecides(err: Err, code: Code, status: int, statusCode: int)
    requires err.name in KnownNames - {"LDAPError", "MulterError"}
    ensures HandleError(err) == HandleError(err.(code := code, status := status, statusCode := statusCode))
  {
  }

  /** With an unrecognised name, a code other than the three system codes
      leaves the status and the message of the error itself. */
  lemma UnknownNameKeepsStatus(err: Err)
    requires err.name !in KnownNames
    requires err.code !in {Text("ENOTFOUND"), Text("ECONNREFUSED"), Text("ETIMEDOUT")}
    ensures HandleError(err).status == DefaultStatus(err)
    ensures err.message != "" ==> HandleError(err).message == err.message
    ensures err.message == "" ==> HandleError(err).message == "Error interno del servidor"
  {
  }

  /** The answer of `clientErrorHandler`, when it answers. */
  datatype ClientReply = ClientReply(status: int, error: string)

  /** `clientErrorHandler`: answers exactly the errors whose `status` is a
      4xx code, with that status; any other error is passed on (`None`). */
  function ClientErrorHandler(err: Err): (r: Option<ClientReply>)
    ensures r.Some? <==> 400 <= err.status < 500
    ensures r.Some? ==> r.value.status == err.status && r.value.error != ""
    ensures r.Some? && err.message != "" ==> r.value.error == err.message
    ensures r.Some? && err.message == "" ==> r.value.error == "Error del cliente"
  {
    if err.status != 0 && 400 <= err.status < 500 then
      Some(ClientReply(err.status, if err.message != "" then err.message else "Error del cliente"))
    else None
  }

  /** `createError(message, status = 500, details = null)`: the status
      defaults only when none is passed, the details are attached only
      when truthy. */
  function CreateError(message: string, status: Option<int>, details: Value): (err: Err)
    ensures err.message == message && err.name == "Error" && err.code == NoCode
    ensures err.status == if status.Some? then status.value else 500
    ensures Truthy(details) ==> err.details == details
    ensures !Truthy(details) ==> err.details == Undefined
  {
    Err("Error", message, if status.Some? then status.value else 500, 0, NoCode, None,
        if Truthy(details) then details else Undefined)
  }

  /** An error made by `createError` with a 4xx status is answered by the
      client handler with that status and its message, `Error del cliente`
      when the message is empty; any other error reaches `errorHandler`,
      which answers its status (500 when it is 0 or omitted) and its
      message (`Error interno del servidor` when empty). */
  lemma CreatedErrorHandled(message: string, status: Option<int>, details: Value)
    ensures var err := CreateError(message, status, details);
      var s := if status.Some? then status.value else 500;
      && (400 <= s < 500 ==>
            ClientErrorHandler(err) == Some(ClientReply(s, if message != "" then message else "Error del cliente")))
      && (!(400 <= s < 500) ==>
            ClientErrorHandler(err).None? &&
            HandleError(err) == Reply(if s != 0 then s else 500,
                                      if message != "" then message else "Error interno del servidor", None))
  {
  }
}
