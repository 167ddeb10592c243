/** The responses the task routes send: a status code and a JSON body. */
module Http {
  import opened Store

  const OK: int := 200
  const BadRequest: int := 400
  const Unauthorized: int := 401
  const InternalError: int := 500

  const TokenRequired: string := "Token requerido."
  const TokenInvalid: string := "Token inválido."
  const AuthFailure: string := "Error interno de autenticación."
  const TitleRequired: string := "El título es obligatorio."
  const ServerFailure: string := "Error interno del servidor."

  /** `{ error }`, an array of task rows, or whatever an update or delete
      call reported, which is relayed without being looked at. */
  datatype Body = ErrorMessage(message: string) | Rows(rows: Table) | Relayed

  datatype Response = Response(status: int, body: Body)

  function Error(status: int, message: string): Response {
    Response(status, ErrorMessage(message))
  }
}
