/**
 The five route handlers of the persona service as pure functions from a table,
 a request and the outcome of the database calls to a response and a new table.
 Each handler is one atomic step; the SQL statement each one issues is replaced
 by the corresponding operation on the map of rows.
 */
module Handlers {
  import opened JsValues
  import opened PersonaModel

  /** What a handler sends back, and the table it leaves behind. */
  datatype Reply = Reply(response: Response, table: Table)

  /** GET /personas: every row, or the driver's error. */
  function List(t: Table, d: Driver): (r: Reply)
    ensures r.table == t
    ensures r.response.status == 200 <==> d.Available?
    ensures r.response.status == 200 ==> r.response.payload == RowsPayload(t.rows)
    ensures d.Failing? ==> r.response == ServerError(d.message)
  {
    if d.Failing? then Reply(ServerError(d.message), t)
    else Reply(Response(200, RowsPayload(t.rows)), t)
  }

  /** GET /personas/:id: the row with that key, or 404 when there is none. */
  function GetById(t: Table, id: int, d: Driver): (r: Reply)
    ensures r.table == t
    ensures r.response == NotFound <==> d.Available? && id !in t.rows
    ensures r.response.status == 200 <==> d.Available? && id in t.rows
    ensures r.response.status == 200 ==> r.response.payload == RowPayload(id, t.rows[id])
    ensures d.Failing? ==> r.response == ServerError(d.message)
  {
    if d.Failing? then Reply(ServerError(d.message), t)
    else if id !in t.rows then Reply(NotFound, t)
    else Reply(Response(200, RowPayload(id, t.rows[id])), t)
  }

  /** POST /personas. The body is validated before any connection is opened, so
      a body with a falsy required field is answered 400 whatever the database
      would do; a valid body is inserted under the next auto-increment key, with
      a falsy `IDdireccion` stored as `null`. */
  function Create(t: Table, body: RequestBody, d: Driver): (r: Reply)
    ensures r.response == BadRequest <==> !HasRequired(body)
    ensures r.response.status == 201 <==> HasRequired(body) && d.Available?
    ensures r.response.status != 201 ==> r.table == t
    ensures HasRequired(body) && d.Failing? ==> r.response == ServerError(d.message)
    ensures r.response.status == 201 ==>
      && r.response.payload == CreatedPayload(CreatedMessage, t.nextId)
      && r.table.nextId == t.nextId + 1
      && r.table.rows.Keys == t.rows.Keys + {t.nextId}
      && RequiredOf(r.table.rows[t.nextId]) == RequiredOfBody(body)
      && ValidRow(r.table.rows[t.nextId])
      && (Truthy(body.idDireccion) ==> r.table.rows[t.nextId].idDireccion == body.idDireccion)
      && (!Truthy(body.idDireccion) ==> r.table.rows[t.nextId].idDireccion == Null)
      && (forall k :: k in t.rows && k != t.nextId ==> r.table.rows[k] == t.rows[k])
    ensures Valid(t) && r.response.status == 201 ==> t.nextId !in t.rows
    ensures Valid(t) ==> Valid(r.table)
  {
    if !Truthy(body.nombre) || !Truthy(body.apellidoPaterno)
       || !Truthy(body.apellidoMaterno) || !Truthy(body.fechaNacimiento)
    then
      Reply(BadRequest, t)
    else if d.Failing? then
      Reply(ServerError(d.message), t)
    else
      var id := t.nextId;
      var row := Persona(body.nombre, body.apellidoPaterno, body.apellidoMaterno,
                         body.fechaNacimiento, Or(body.idDireccion, Null));
      Reply(Response(201, CreatedPayload(CreatedMessage, id)),
            Table(t.rows[id := row], id + 1))
  }

  /** The row PUT writes back: each required column takes the request's value when
      that value is truthy and keeps the stored one otherwise; `IDdireccion` takes
      the request's value whenever the body mentions it, `null` included. */
  function Merge(stored: Persona, body: RequestBody): (m: Persona)
    ensures forall i :: 0 <= i < 4 ==>
      RequiredOf(m)[i] == (if Truthy(RequiredOfBody(body)[i]) then RequiredOfBody(body)[i]
                           else RequiredOf(stored)[i])
    ensures body.idDireccion != Undefined ==> m.idDireccion == body.idDireccion
    ensures body.idDireccion == Undefined ==> m.idDireccion == stored.idDireccion
    ensures HasRequired(body) ==> RequiredOf(m) == RequiredOfBody(body)
    ensures ValidRow(stored) ==> ValidRow(m)
  {
    Persona(
      Or(body.nombre, stored.nombre),
      Or(body.apellidoPaterno, stored.apellidoPaterno),
      Or(body.apellidoMaterno, stored.apellidoMaterno),
      Or(body.fechaNacimiento, stored.fechaNacimiento),
      Override(body.idDireccion, stored.idDireccion))
  }

  /** PUT /personas/:id: 404 when the row is missing, otherwise the merged row
      replaces it and no other row changes. */
  function Update(t: Table, id: int, body: RequestBody, d: Driver): (r: Reply)
    ensures r.response.status == 200 <==> d.Available? && id in t.rows
    ensures r.response == NotFound <==> d.Available? && id !in t.rows
    ensures d.Failing? ==> r.response == ServerError(d.message)
    ensures r.response.status != 200 ==> r.table == t
    ensures r.response.status == 200 ==>
      && r.response.payload == MessagePayload(UpdatedMessage)
      && r.table.nextId == t.nextId
      && r.table.rows.Keys == t.rows.Keys
      && r.table.rows[id] == Merge(t.rows[id], body)
      && (forall k :: k in t.rows && k != id ==> r.table.rows[k] == t.rows[k])
    ensures Valid(t) ==> Valid(r.table)
  {
    if d.Failing? then Reply(ServerError(d.message), t)
    else if id !in t.rows then Reply(NotFound, t)
    else
      var merged := Merge(t.rows[id], body);
      Reply(Response(200, MessagePayload(UpdatedMessage)), t.(rows := t.rows[id := merged]))
  }

  /** DELETE /personas/:id: 404 when no row was affected, otherwise exactly that
      row is gone. The auto-increment counter is untouched. */
  function Delete(t: Table, id: int, d: Driver): (r: Reply)
    ensures r.response.status == 200 <==> d.Available? && id in t.rows
    ensures r.response == NotFound <==> d.Available? && id !in t.rows
    ensures d.Failing? ==> r.response == ServerError(d.message)
    ensures r.response.status != 200 ==> r.table == t
    ensures r.response.status == 200 ==>
      && r.response.payload == MessagePayload(DeletedMessage)
      && r.table.nextId == t.nextId
      && r.table.rows.Keys == t.rows.Keys - {id}
      && (forall k :: k in r.table.rows ==> r.table.rows[k] == t.rows[k])
    ensures d.Available? ==> id !in r.table.rows
    ensures Valid(t) ==> Valid(r.table)
  {
    if d.Failing? then Reply(ServerError(d.message), t)
    else if id !in t.rows then Reply(NotFound, t)
    else Reply(Response(200, MessagePayload(DeletedMessage)), t.(rows := t.rows - {id}))
  }

  /** A request as the router sees it: the route plus its path id and body. */
  datatype Request =
    | ListAll
    | GetOne(id: int)
    | CreateOne(body: RequestBody)
    | UpdateOne(id: int, body: RequestBody)
    | DeleteOne(id: int)

  /** The route table: each request goes to its handler. */
  function Handle(t: Table, req: Request, d: Driver): (r: Reply)
    ensures Valid(t) ==> Valid(r.table)
    ensures r.response.payload.CreatedPayload? <==> r.response.status == 201
    ensures r.response.status == 201 ==>
      r.response.payload.id == t.nextId && r.table.nextId == t.nextId + 1
    ensures r.response.status != 201 ==> r.table.nextId == t.nextId
    ensures d.Failing? ==> r.table == t
    ensures d.Failing? ==> r.response.status == 500 || (req.CreateOne? && r.response == BadRequest)
    ensures req.ListAll? ==> r == List(t, d)
    ensures req.GetOne? ==> r == GetById(t, req.id, d)
    ensures req.CreateOne? ==> r == Create(t, req.body, d)
    ensures req.UpdateOne? ==> r == Update(t, req.id, req.body, d)
    ensures req.DeleteOne? ==> r == Delete(t, req.id, d)
  {
    match req
    case ListAll => List(t, d)
    case GetOne(id) => GetById(t, id, d)
    case CreateOne(body) => Create(t, body, d)
    case UpdateOne(id, body) => Update(t, id, body, d)
    case DeleteOne(id) => Delete(t, id, d)
  }
}
