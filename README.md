# Shared tile canvas: tile store, paint pipeline and queries

A model of the core of a small collaborative canvas server. The canvas is a
table of tiles keyed by the integer pair `(x, y)`, each holding one color
string; absence of a key means the tile was never painted. A paint request
goes through three checks in a fixed order, is upserted into the table, and
only when the upsert commits is `{x, y, color}` broadcast to every connected
client. Two read-only queries return every stored tile, or the stored tiles
strictly inside an open rectangle.

Modules, one per component:

- `JsValues` (`js_values.dfy`): the JSON values a request field can hold, `typeof`, `===` and truthiness.
- `Tiles` (`tiles.dfy`): the table as `map<(int, int), string>`, upsert, the rows a query returns, the snapshot.
- `Queries` (`queries.dfy`): the viewport query with its finiteness guard and open-rectangle filter.
- `Pipeline` (`pipeline.dfy`): the ordered checks, one request as a pure step, and the `TileStore` class whose `Paint` method updates the table and the broadcast stream in place.
- `Broadcast` (`broadcast.dfy`): a run of requests handled one after another; commit order, one event per commit, last write wins.
- `Scenarios` (`scenarios.dfy`): the system's example runs.

The coordinate check of the paint handler is written as `typeof x === undefined`:
it compares the string `typeof` yields with the value `undefined`, so it never
holds, even for a body without `x`. The model follows the code: `Validate`
never answers `MissingCoordinate`, and a body without `x` goes on to the
upsert (`Scenarios.MissingXNotRejectedByGuard`). The evident intent is to
reject a body without `x` or `y`; the code as written never does.

The `is-color` predicate is a function-valued parameter (a constant field of
`TileStore`). Whether the database commits an upsert, and whether it answers a
read, are `bool` parameters; a failed read, like a failed upsert, reaches the
error handler and is reported as the generic Internal error. Range parameters
are integers or `NonFinite`.

## Model

| member | source | states |
|---|---|---|
| JsValues.TypeOf | app.js:57 | `typeof` always yields one of five type-name strings, and "undefined" exactly for a missing field |
| JsValues.TypeOfNeverUndefinedValue | app.js:57-59 | the guard `typeof v === undefined` is false for every value, a missing field included |
| Tiles.Upsert | app.js:66-68 | after the upsert the record for the tile's coordinates holds its color, the key set gains at most that key, and every other coordinate's color or absence is unchanged |
| Tiles.UpsertIdempotent | app.js:29-36 | upserting the same record twice gives the same table as upserting it once |
| Tiles.UpsertLastWins | app.js:66 | a second upsert on the same composite key replaces the first one's color instead of adding a record |
| Tiles.Rows | app.js:79-81 | query rows for a key set: one row per key, no two rows with the same coordinates, each carrying the stored color, and no other rows |
| Tiles.Snapshot | app.js:87-89 | Internal exactly when the read fails; otherwise exactly the stored tiles, as many rows as records, one per coordinate, never an unpainted coordinate |
| Tiles.SnapshotAfterUpsert | app.js:66-88 | after `(x, y, c)` is stored the snapshot holds exactly one row with key `(x, y)`, and its color is `c` |
| Queries.TilesInBox | app.js:74-85 | InvalidBox whenever some parameter is not finite, whether or not the read would succeed; Internal for a finite box whose read fails; otherwise exactly the stored tiles with `X < x < X+W` and `Y < y < Y+H`, one row per coordinate, and an empty result for a non-positive width or height |
| Queries.InvalidBoxIndependentOfStore | app.js:75-77 | a box with a non-finite parameter is refused with InvalidBox whatever the table holds and whether or not the database would answer |
| Queries.BoundaryExcluded | app.js:78-81 | a stored tile on any of the four boundary lines is excluded; one at `X+W-1`, `Y+H-1` strictly inside is included |
| Pipeline.Validate | app.js:56-65 | never MissingCoordinate; MissingColor exactly for a falsy color; InvalidColor exactly for a truthy color the predicate refuses; accepted exactly for a truthy color it accepts |
| Pipeline.PaintStep | app.js:56-72 | painted exactly when validation passes and the upsert commits; then the table holds the color at `(x, y)`, nothing else changes, and exactly the event `{x, y, color}` is emitted; otherwise table and stream are untouched and the error is the first failing check's, or Internal; stored colors stay valid |
| Pipeline.MissingColorBeforePredicate | app.js:60-65 | a falsy color is refused as MissingColor whatever the color predicate answers, with table and stream untouched |
| Pipeline.PaintIdempotent | app.js:66 | painting the same request a second time leaves the table as the first paint left it |
| Pipeline.TileStore.constructor | app.js:28-40 | a new store has an empty table and an empty broadcast stream, and its invariant holds |
| Pipeline.TileStore.Paint | app.js:56-72 | updates the table and appends to the broadcast stream exactly as `PaintStep` says; keeps every stored and broadcast color one that passed both color checks, and keeps last write wins: at every coordinate the table holds the color of the last event broadcast for it, and nothing where none was |
| Broadcast.LastBroadcastWins | app.js:66-69 | after a run of requests the table holds at every coordinate the color of the last broadcast event for it, or its earlier content when none was broadcast |
| Broadcast.ReplayConcat | app.js:66-69 | events of an earlier batch of writes all come before those of a later batch, and the later batch starts from the earlier batch's table |
| Broadcast.OneEventPerCommit | app.js:66-71 | the broadcast stream gains exactly one event per painted request, so never more events than requests |
| Scenarios.PaintThenQueryBox | app.js:56-85 | painting (5, 5) red on an empty canvas, box (0, 0, 10, 10) returns exactly that tile and box (6, 6, 10, 10) returns nothing |
| Scenarios.BlueThenGreen | app.js:66-69 | blue then green at (1, 1) are broadcast in that order and the table ends up green |
| Scenarios.NotAColorRefused | app.js:63-65 | a color the predicate refuses gives InvalidColor with table and stream untouched |
| Scenarios.MissingXNotRejectedByGuard | app.js:57-59 | a body without `x` passes validation and is not refused as MissingCoordinate |

## Left out

- HTTP routing, body parsing, `helmet`, static files, the 404 route, status codes and the error middleware's text: transport plumbing; only the kind of error is kept.
- `dotenv`, `server.listen` and console logging: process bootstrap and I/O.
- Sequelize, SQLite and the SQL text: the table is an in-memory map; whether an upsert commits and whether a read is answered are parameters.
- Pipeline.TileStore.constructor: a model store starts with an empty table and an empty stream, while the program, after `db.sync`, starts from the rows already saved in its database file; the last-write-wins invariant is stated for a store that starts empty.
- Pipeline.RowOf: what the database does with a coordinate that is not an integer number (a string, `null`, a missing field) or a color that is not a string is not modelled; such an upsert is treated as one that does not commit, so the request ends as Internal.
- socket.io transport, connections and per-client delivery: the broadcast is one shared append-only sequence.
- Concurrent, raced upserts and promise asynchrony: requests are handled one after another.
- The `is-color` library: its definition is not shown, so it is an arbitrary predicate.
- JavaScript number semantics: JSON numbers in a request are integers only (fractional numbers are not modelled), and route parameters are integers or `NonFinite`; floating-point sums in the WHERE clause are integer sums.
- Query result order: the database's order is not modelled; rows come in an arbitrary order.
