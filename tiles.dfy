/** The tile table: one record per integer coordinate pair, holding a color
    string. The map type itself is the composite primary key (x, y): there is
    never more than one record for a coordinate. */
module Tiles {

  datatype Option<T> = None | Some(value: T)

  type Coord = (int, int)

  /** A stored record, also the shape of query rows and of broadcast events. */
  datatype Tile = Tile(x: int, y: int, color: string) {
    function Key(): Coord { (x, y) }
  }

  /** What the core reports to a caller when it rejects or fails a request. */
  datatype ErrorKind =
    | MissingCoordinate
    | MissingColor
    | InvalidColor
    | InvalidBox
    | Internal

  /** The answer to a read: the rows, or the error passed to the error handler. */
  datatype QueryResult = Found(tiles: seq<Tile>) | Refused(error: ErrorKind)

  /** The table's contents: absence of a key is the "never painted" state. */
  type Table = map<Coord, string>

  /** The color stored at `k`, or None when `k` was never painted. */
  function Lookup(m: Table, k: Coord): (r: Option<string>)
    ensures r.Some? <==> k in m
    ensures r.Some? ==> r.value == m[k]
  {
    if k in m then Some(m[k]) else None
  }

  /** Create-or-replace on the composite key: afterwards the record for the
      tile's coordinates holds its color, every other record (or absence) is
      as it was, and no second record for the coordinates exists. */
  function Upsert(m: Table, t: Tile): (m': Table)
    ensures m'.Keys == m.Keys + {t.Key()}
    ensures Lookup(m', t.Key()) == Some(t.color)
    ensures forall k :: k != t.Key() ==> Lookup(m', k) == Lookup(m, k)
  {
    m[t.Key() := t.color]
  }

  /** Upserting the same record twice leaves the table as upserting it once. */
  lemma UpsertIdempotent(m: Table, t: Tile)
    ensures Upsert(Upsert(m, t), t) == Upsert(m, t)
  {
  }

  /** A later upsert on the same coordinates replaces the earlier color. */
  lemma UpsertLastWins(m: Table, t: Tile, u: Tile)
    requires t.Key() == u.Key()
    ensures Upsert(Upsert(m, t), u) == Upsert(m, u)
  {
  }

  /** The rows a query returns for the keys `keys` of table `m`, in an order
      the database chooses: exactly one row per key, carrying the stored
      color, and nothing else. */
  ghost function Rows(m: Table, keys: set<Coord>): (r: seq<Tile>)
    requires keys <= m.Keys
    ensures |r| == |keys|
    ensures forall t :: t in r <==> t.Key() in keys && t.color == m[t.Key()]
    ensures forall i, j :: 0 <= i < j < |r| ==> r[i].Key() != r[j].Key()
    decreases keys
  {
    if keys == {} then []
    else
      var k :| k in keys;
      [Tile(k.0, k.1, m[k])] + Rows(m, keys - {k})
  }

  /** The snapshot query: every stored tile, one row each, and no row for a
      coordinate that was never painted; `readOk` says whether the database
      answers the read, and a failed read is the generic Internal error. */
  ghost function Snapshot(m: Table, readOk: bool): (r: QueryResult)
    ensures r.Refused? <==> !readOk
    ensures r.Refused? ==> r.error == Internal
    ensures r.Found? ==> |r.tiles| == |m|
    ensures r.Found? ==> forall t :: t in r.tiles <==> t.Key() in m && m[t.Key()] == t.color
    ensures r.Found? ==> forall i, j :: 0 <= i < j < |r.tiles| ==> r.tiles[i].Key() != r.tiles[j].Key()
  {
    if !readOk then Refused(Internal) else Found(Rows(m, m.Keys))
  }

  /** After `(x, y, c)` is stored, the snapshot holds exactly one row with
      that key, and its color is `c`. */
  lemma SnapshotAfterUpsert(m: Table, t: Tile)
    ensures var r := Snapshot(Upsert(m, t), true);
      && r.Found?
      && t in r.tiles
      && (forall i :: 0 <= i < |r.tiles| && r.tiles[i].Key() == t.Key() ==> r.tiles[i] == t)
      && (forall i, j ::
            0 <= i < |r.tiles| && 0 <= j < |r.tiles| && r.tiles[i].Key() == t.Key() && r.tiles[j].Key() == t.Key()
            ==> i == j)
  {
  }

  /** The color of the last event for `k` in the event sequence `log`, or
      `before` if there is none. */
  function LatestColor(log: seq<Tile>, k: Coord, before: Option<string>): Option<string>
    decreases |log|
  {
    if log == [] then before
    else if log[|log| - 1].Key() == k then Some(log[|log| - 1].color)
    else LatestColor(log[..|log| - 1], k, before)
  }

  lemma {:induction false} LatestColorAppend(a: seq<Tile>, b: seq<Tile>, k: Coord, before: Option<string>)
    ensures LatestColor(a + b, k, before) == LatestColor(b, k, LatestColor(a, k, before))
    decreases |b|
  {
    if b == [] {
      assert a + b == a;
    } else {
      assert (a + b)[..|a + b| - 1] == a + b[..|b| - 1];
      LatestColorAppend(a, b[..|b| - 1], k, before);
    }
  }
}
