/** The viewport query `GET /tiles/:x/:y/:width/:height`: a finiteness
    guard on the four route parameters, then an open-rectangle filter over
    the tile table. */
module Queries {
  import opened Tiles

  /** A route parameter after numeric conversion: an integer, or a value
      that is not a finite number (NaN or an infinity). */
  datatype Param = Finite(v: int) | NonFinite

  datatype Box = Box(x: Param, y: Param, width: Param, height: Param)

  /** The negation of `[x, y, width, height].some(n => !Number.isFinite(+n))`. */
  predicate AllFinite(b: Box)
  {
    b.x.Finite? && b.y.Finite? && b.width.Finite? && b.height.Finite?
  }

  /** The WHERE clause: `x > X AND x < X + W AND y > Y AND y < Y + H`. */
  predicate InOpenRect(k: Coord, x0: int, y0: int, w: int, h: int)
  {
    x0 < k.0 < x0 + w && y0 < k.1 < y0 + h
  }

  /** The stored tiles strictly inside the box. The finiteness guard comes
      first and answers InvalidBox without reading the table; only a finite
      box reaches the database, whose failed read (`readOk` false) is the
      generic Internal error. */
  ghost function TilesInBox(m: Table, b: Box, readOk: bool): (r: QueryResult)
    ensures !AllFinite(b) ==> r == Refused(InvalidBox)
    ensures AllFinite(b) && !readOk ==> r == Refused(Internal)
    ensures r.Found? <==> AllFinite(b) && readOk
    ensures r.Found? ==> forall t :: t in r.tiles <==>
      && t.Key() in m && m[t.Key()] == t.color
      && InOpenRect(t.Key(), b.x.v, b.y.v, b.width.v, b.height.v)
    ensures r.Found? ==> forall i, j :: 0 <= i < j < |r.tiles| ==> r.tiles[i].Key() != r.tiles[j].Key()
    ensures r.Found? && (b.width.v <= 0 || b.height.v <= 0) ==> r.tiles == []
  {
    if !AllFinite(b) then Refused(InvalidBox)
    else if !readOk then Refused(Internal)
    else
      var keys := set k | k in m && InOpenRect(k, b.x.v, b.y.v, b.width.v, b.height.v);
      Found(Rows(m, keys))
  }

  /** A refused box is refused whatever the table holds and whether or not
      the database would answer: the guard runs before the table is read. */
  lemma InvalidBoxIndependentOfStore(m1: Table, m2: Table, b: Box, ok1: bool, ok2: bool)
    requires !AllFinite(b)
    ensures TilesInBox(m1, b, ok1) == TilesInBox(m2, b, ok2) == Refused(InvalidBox)
  {
  }

  /** A stored tile on the right or top boundary, or on the left or bottom
      one, is not returned; one at `X + W - 1`, `Y + H - 1` is, when that
      point is strictly inside the box. */
  lemma BoundaryExcluded(m: Table, x0: int, y0: int, w: int, h: int, t: Tile)
    requires t.Key() in m && m[t.Key()] == t.color
    ensures var r := TilesInBox(m, Box(Finite(x0), Finite(y0), Finite(w), Finite(h)), true);
      && r.Found?
      && (t.x == x0 + w || t.x == x0 || t.y == y0 + h || t.y == y0 ==> t !in r.tiles)
      && (t.x == x0 + w - 1 && t.y == y0 + h - 1 && x0 < t.x && y0 < t.y ==> t in r.tiles)
  {
  }
}
