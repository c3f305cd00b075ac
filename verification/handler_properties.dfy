/**
 Properties that relate two or more handler calls: create-then-get, update with
 an empty body, the `IDdireccion` clearing rule, delete twice, keys never reused,
 and what a failing database leaves behind.
 */
module HandlerProperties {
  import opened JsValues
  import opened PersonaModel
  import opened Handlers

  /** A key a successful POST returns resolves, through GET, to a row carrying the
      submitted required fields and the normalised `IDdireccion`. */
  lemma CreateThenGet(t: Table, body: RequestBody, d: Driver)
    requires HasRequired(body)
    ensures var c := Create(t, body, Available);
            && c.response.status == 201
            && var g := GetById(c.table, c.response.payload.id, d);
               d.Available? ==>
                 && g.response.status == 200
                 && g.response.payload.id == c.response.payload.id
                 && RequiredOf(g.response.payload.row) == RequiredOfBody(body)
                 && g.response.payload.row.idDireccion == Or(body.idDireccion, Null)
  {
  }

  /** The worked example: POST Ana Li Wu born 1990-01-01 without `IDdireccion` into
      an empty table answers 201 with key 1, and GET /personas/1 returns the same
      four fields with `IDdireccion` null. */
  lemma CreateThenGetExample()
    ensures var body := RequestBody(Str("Ana"), Str("Li"), Str("Wu"), Str("1990-01-01"), Undefined);
            var c := Create(EmptyTable, body, Available);
            && c.response == Response(201, CreatedPayload("Persona creada", 1))
            && GetById(c.table, 1, Available).response
               == Response(200, RowPayload(1, Persona(Str("Ana"), Str("Li"), Str("Wu"), Str("1990-01-01"), Null)))
  {
  }

  /** Creation missing `fecha_nacimiento` (absent, or present but falsy) is a 400
      and inserts nothing, whether or not the database is reachable. */
  lemma CreateWithoutBirthDateRejected(t: Table, body: RequestBody, d: Driver)
    requires !Truthy(body.fechaNacimiento)
    ensures Create(t, body, d) == Reply(BadRequest, t)
  {
  }

  /** PUT with the body `{}` changes nothing: a GET before and a GET after agree. */
  lemma UpdateEmptyBodyIsIdentity(t: Table, id: int, d: Driver, g: Driver)
    ensures Update(t, id, EmptyBody, d).table == t
    ensures GetById(Update(t, id, EmptyBody, d).table, id, g) == GetById(t, id, g)
  {
  }

  /** `IDdireccion: null` in a PUT clears the reference; leaving the key out keeps it. */
  lemma UpdateIdDireccionRule(t: Table, id: int, body: RequestBody)
    requires id in t.rows
    ensures body.idDireccion == Null ==>
      Update(t, id, body, Available).table.rows[id].idDireccion == Null
    ensures body.idDireccion == Undefined ==>
      Update(t, id, body, Available).table.rows[id].idDireccion == t.rows[id].idDireccion
  {
  }

  /** Sending the same PUT twice leaves the same table as sending it once. */
  lemma UpdateIdempotent(t: Table, id: int, body: RequestBody, d: Driver)
    ensures var once := Update(t, id, body, d).table;
            Update(once, id, body, d).table == once
  {
  }

  /** Delete is idempotent in effect but not in response: the second DELETE of a
      key is a 404 and changes nothing. */
  lemma DeleteTwice(t: Table, id: int)
    ensures var first := Delete(t, id, Available);
            var second := Delete(first.table, id, Available);
            && second.response == NotFound
            && second.table == first.table
  {
  }

  /** A key that has been deleted is never handed out again by a later POST. */
  lemma DeletedKeyNotReissued(t: Table, id: int, body: RequestBody)
    requires Valid(t)
    requires id in t.rows
    ensures var afterDelete := Delete(t, id, Available).table;
            var c := Create(afterDelete, body, Available);
            c.response.status == 201 ==> c.response.payload.id != id
  {
  }

  /** With a failing database no request changes the table; every answer is the
      500 carrying the driver's message, except a POST with a falsy required field,
      which is rejected before any connection is attempted. */
  lemma FailingDatabaseChangesNothing(t: Table, req: Request, message: string)
    ensures var r := Handle(t, req, Failing(message));
            && r.table == t
            && (r.response == ServerError(message) || (req.CreateOne? && r.response == BadRequest))
            && (req.CreateOne? && !HasRequired(req.body) ==> r.response == BadRequest)
  {
  }
}
