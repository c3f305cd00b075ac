/**
 The data the persona service works on: the `persona` row, the JSON body of a
 POST or PUT request, the table with its auto-increment counter, the outcome of
 a database call, and the HTTP responses the handlers send.
 */
module PersonaModel {
  import opened JsValues

  /** One row of the `persona` table, without its key. */
  datatype Persona = Persona(
    nombre: JsVal,
    apellidoPaterno: JsVal,
    apellidoMaterno: JsVal,
    fechaNacimiento: JsVal,
    idDireccion: JsVal)

  /** The fields a POST or PUT destructures from `req.body`; a field the body
      does not mention is `Undefined`. */
  datatype RequestBody = RequestBody(
    nombre: JsVal,
    apellidoPaterno: JsVal,
    apellidoMaterno: JsVal,
    fechaNacimiento: JsVal,
    idDireccion: JsVal)

  /** The body `{}`. */
  const EmptyBody: RequestBody := RequestBody(Undefined, Undefined, Undefined, Undefined, Undefined)

  /** The four required columns of a row, in declaration order. */
  function RequiredOf(p: Persona): seq<JsVal> {
    [p.nombre, p.apellidoPaterno, p.apellidoMaterno, p.fechaNacimiento]
  }

  /** The four required fields of a body, in the same order as `RequiredOf`. */
  function RequiredOfBody(b: RequestBody): seq<JsVal> {
    [b.nombre, b.apellidoPaterno, b.apellidoMaterno, b.fechaNacimiento]
  }

  /** Every required field of the body is truthy. */
  predicate HasRequired(b: RequestBody) {
    forall v :: v in RequiredOfBody(b) ==> Truthy(v)
  }

  /** Every required column of the row is truthy. */
  predicate ValidRow(p: Persona) {
    forall v :: v in RequiredOf(p) ==> Truthy(v)
  }

  /** The `persona` table: rows by primary key, and the auto-increment counter
      that supplies the next key. The model assumes a persistent counter that
      advances by one per insert. */
  datatype Table = Table(rows: map<int, Persona>, nextId: int)

  const EmptyTable: Table := Table(map[], 1)

  /** The table invariant: keys lie below the counter and are positive, and every
      stored row has truthy required columns. */
  predicate Valid(t: Table) {
    && 1 <= t.nextId
    && (forall id :: id in t.rows ==> 1 <= id < t.nextId)
    && (forall id :: id in t.rows ==> ValidRow(t.rows[id]))
  }

  /** What every database call of one request does: succeed, or raise an error
      carrying `message` (connection refused, statement rejected, ...). */
  datatype Driver = Available | Failing(message: string)

  /** The JSON body of a response. */
  datatype Payload =
    | MessagePayload(message: string)              // { message }
    | CreatedPayload(message: string, id: int)     // { message, id }
    | RowPayload(id: int, row: Persona)            // one persona object
    | RowsPayload(rows: map<int, Persona>)         // the array of all persona objects
    | ErrorPayload(error: string)                  // { error }

  datatype Response = Response(status: int, payload: Payload)

  const NotFoundMessage: string := "Persona no encontrada"
  const MissingDataMessage: string := "Faltan datos obligatorios"
  const CreatedMessage: string := "Persona creada"
  const UpdatedMessage: string := "Persona actualizada"
  const DeletedMessage: string := "Persona eliminada"

  const NotFound: Response := Response(404, MessagePayload(NotFoundMessage))
  const BadRequest: Response := Response(400, MessagePayload(MissingDataMessage))

  /** The `catch` branch every handler shares: 500 with the error's message. */
  function ServerError(message: string): Response {
    Response(500, ErrorPayload(message))
  }
}
