# Persona service: a verified model of its request rules

The persona service is a small Express application. It exposes create, read,
update and delete over one `persona` table in MySQL. GET, DELETE and a valid
POST each open a connection, issue one SQL statement and turn the result into a
JSON response. PUT issues two statements on its connection: a SELECT of the row
(index.js:86) and then the UPDATE (index.js:100). A POST with a falsy required
field is answered at index.js:63-65, before `getConnection` at index.js:66, so
it opens no connection at all.
The only logic of its own is the handlers' request rules:

- JavaScript truthiness decides whether a required field is present.
- `IDdireccion || null` normalises the address reference on insert.
- On update, required fields are merged with a truthy-override rule, and
  `IDdireccion` with an `!== undefined` rule.
- A missing row is answered with 404, a failed validation with 400, a driver
  error with 500, and success with 201 (create) or 200 (everything else).

The model writes each handler as a pure function. Its inputs are a table, the
request and the outcome of the database calls (`Driver`). It returns a response
and the new table.

- `js_values.dfy` (`JsValues`): the JSON values a body can carry (`Undefined`,
  `Null`, `Str`, `Num`, `Bool`), ECMAScript truthiness, `||`, and the strict
  `undefined` test.
- `persona_model.dfy` (`PersonaModel`): the row, the request body, the table,
  the driver outcome and the responses with their exact messages. It also
  defines the table invariant `Valid`: keys are positive and below the
  auto-increment counter, and every row has truthy `nombre`, `apellido_paterno`,
  `apellido_materno` and `fecha_nacimiento`.
- `handlers.dfy` (`Handlers`): List, GetById, Create, Merge, Update, Delete and
  the router `Handle`.
- `handler_properties.dfy` (`HandlerProperties`): properties that relate several
  calls.
- `request_runs.dfy` (`RequestRuns`): any sequence of requests against one
  table. The invariant survives every run. Keys announced by 201 responses are
  strictly increasing and never name an earlier row.

The table carries an auto-increment counter (`nextId`) standing for MySQL's
AUTO_INCREMENT. The model assumes a persistent counter that advances by one per
insert and that deletes leave alone. This rule belongs to the database, not the
service. The MySQL caveats are listed under "## Left out".

The code requires the four required columns to be truthy, which is stronger
than non-null: POST rejects and PUT ignores an empty string, `0` or `false`.
`Valid` states that truthy form.

## Model

| member | source | states |
|---|---|---|
| JsValues.TruthyIffNotFalsy | index.js:63 | a value fails the `!x` check exactly when it is one of the five falsy values: undefined, null, "", 0, false |
| JsValues.Or | index.js:94-97 | `a \|\| b` yields one of its operands; the result is truthy iff either operand is; it is `a` when `a` is truthy and `b` otherwise |
| JsValues.Override | index.js:98 | `given !== undefined ? given : stored` yields `given` whenever it is present; an explicit `null` yields `null`; `stored` is kept only when `given` is absent |
| JsValues.OrNullNormalises | index.js:69 | `x \|\| null` keeps every truthy value and turns every falsy one (absent, null, "", 0, false) into null |
| Handlers.List | index.js:32-41 | GET /personas answers 200 with every row iff the driver works, otherwise 500 with the driver's message; the table is unchanged |
| Handlers.GetById | index.js:44-57 | the table is unchanged; 404 "Persona no encontrada" exactly when the driver works and the key is missing; 200 with exactly the stored row exactly when the key is present; 500 on a driver error |
| Handlers.Create | index.js:60-76 | 400 "Faltan datos obligatorios" iff some required field is falsy, even with a failing driver; 201 iff the body is valid and the driver works; otherwise the table is unchanged; on 201 the key is the counter's value and is fresh in a valid table; the row holds the submitted required fields and the normalised `IDdireccion`; every other row is unchanged; a valid table stays valid |
| Handlers.Merge | index.js:92-98 | each required column takes the request's value iff it is truthy and keeps the stored one otherwise; `IDdireccion` takes any present value, including null; a body with all required fields truthy replaces them all; a row with truthy required columns keeps them truthy |
| Handlers.Update | index.js:79-110 | 200 "Persona actualizada" iff the driver works and the row exists; 404 iff it is missing; 500 on a driver error; any non-200 leaves the table unchanged; on 200 only the target row changes, to the merged row; the key set and counter stay the same; validity is preserved |
| Handlers.Delete | index.js:113-126 | 200 "Persona eliminada" iff the driver works and the row exists; 404 iff it is missing; on 200 exactly that key is removed, every other row is unchanged and the counter stays the same; afterwards the key is absent; validity is preserved |
| Handlers.Handle | index.js:29-126 | each request reaches the handler of its route; routing any request preserves validity; only a 201 carries a new key, which equals the counter, and only a 201 advances the counter, by one; with a failing driver the table is unchanged and the answer is the 500, or the 400 of a POST |
| HandlerProperties.CreateThenGet | index.js:44-76 | the key a successful POST returns resolves through GET to a row with the submitted required fields and `IDdireccion \|\| null` |
| HandlerProperties.CreateThenGetExample | index.js:60-72 | POST Ana/Li/Wu/1990-01-01 into an empty table answers 201 with key 1; GET /personas/1 returns those four fields with `IDdireccion` null |
| HandlerProperties.CreateWithoutBirthDateRejected | index.js:62-65 | a POST whose `fecha_nacimiento` is absent or falsy is a 400 and inserts nothing |
| HandlerProperties.UpdateEmptyBodyIsIdentity | index.js:94-98 | a PUT with `{}` leaves the table unchanged, so GET gives the same answer before and after |
| HandlerProperties.UpdateIdDireccionRule | index.js:98 | a PUT with `IDdireccion: null` clears the reference; a PUT that omits it keeps the stored value |
| HandlerProperties.UpdateIdempotent | index.js:92-103 | sending the same PUT twice leaves the same table as sending it once |
| HandlerProperties.DeleteTwice | index.js:117-122 | a second DELETE of the same key answers 404 and changes nothing |
| HandlerProperties.DeletedKeyNotReissued | index.js:66-72 | in a valid table, a POST after deleting a key never returns that key |
| HandlerProperties.FailingDatabaseChangesNothing | index.js:62-75 | with a failing driver, no request changes the table; the answer is the 500 with the driver's message, except a POST with a falsy required field, which gets the 400 |
| RequestRuns.Run | index.js:29-126 | a run of requests yields one response per request; the counter never decreases |
| RequestRuns.RunPreservesValid | index.js:60-110 | every sequence of requests from a valid table ends in a valid table: every stored row keeps truthy required fields |
| RequestRuns.RunCreatedIdsIncrease | index.js:66-72 | the keys announced by 201 responses are strictly increasing; they lie between the counter's values before and after the run; the counter advances by exactly one per 201 |
| RequestRuns.RunNeverReissuesKey | index.js:66-72 | no key announced in a run from a valid table names a row of the starting table, and none is announced twice |

## Left out

- Express routing, the `cors` and `express.json` middleware, `app.listen` and
  its log line (index.js:7-12, 129-131). This is HTTP plumbing; the router is
  reduced to `Handle`.
- dotenv, `dbConfig` with `parseInt(DB_PORT)` and the TLS option, and
  `getConnection` (index.js:1, 14-27). This is environment and driver setup.
- SQL text, the mysql2 driver, and opening and closing connections. They are
  replaced by operations on the map of rows.
- MySQL's coercion of stored values is not modelled. A string path id is not
  coerced to a number either: ids are integers here, and every path id
  addresses the row with that key.
- The 500 path is an opaque `Driver.Failing(message)`. When it fails, every
  database call of that request fails and the table is unchanged. The model does
  not cover a failure after a committed write, for example `conn.end()`
  throwing after the INSERT; the service would answer 500 with the row already
  stored. The model also does not cover failures caused by the values
  themselves, for example an `IDdireccion` that violates a foreign key.
- The fetch-then-write race in PUT (index.js:86-103) is not modelled. Update is
  one atomic step because concurrency is out of scope.
- JavaScript values other than undefined, null, strings, integers and booleans
  are left out: objects, arrays, fractional numbers and NaN. Their truthiness
  follows the same ToBoolean rule (objects are truthy; a fraction is truthy
  unless zero; NaN is falsy), but the datatype does not carry them.
- The dates in `fecha_nacimiento` are opaque values; only their truthiness
  matters.
- How the JSON serializer renders rows: the column names, and dates as strings.
  Responses carry the row value itself.
- HandlerProperties.DeletedKeyNotReissued, RequestRuns.RunNeverReissuesKey,
  RequestRuns.RunCreatedIdsIncrease and Handlers.Handle rest on the model's
  counter. That counter is persistent, has no gaps and advances by exactly one
  per insert. Real MySQL can differ in three ways. Before 8.0, InnoDB resets
  the counter to MAX(id)+1 on restart, so deleting the highest-keyed row and
  then restarting hands its key out again. `auto_increment_increment` can be
  greater than 1. Failed or rolled-back inserts can use up values. Server
  restarts and these settings are not modelled, so the "never reissued" and
  "exactly one per 201" clauses hold only for the model's counter.
- The order of the rows that GET /personas returns. It is the database's
  default and is unspecified, so List answers with the map of rows.
