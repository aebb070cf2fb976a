/** The `POST /tile` handler: three checks in a fixed order, then an upsert,
    then, only when the upsert succeeded, one broadcast event. */
module Pipeline {
  import opened JsValues
  import opened Tiles

  /** The three fields the handler destructures from the request body. */
  datatype PaintRequest = PaintRequest(x: JsValue, y: JsValue, color: JsValue)

  /** What the caller is told: success, or the kind of the error passed to
      the error handler. */
  datatype Outcome = Painted | Rejected(error: ErrorKind)

  /** The checks, in the handler's order. The first one is written as
      `typeof x === undefined`, which compares a string with the value
      undefined and therefore never rejects; only the two color checks can. */
  function Validate(isColor: JsValue -> bool, req: PaintRequest): (r: Option<ErrorKind>)
    ensures r != Some(MissingCoordinate)
    ensures r == Some(MissingColor) <==> !Truthy(req.color)
    ensures r == Some(InvalidColor) <==> Truthy(req.color) && !isColor(req.color)
    ensures r == None <==> Truthy(req.color) && isColor(req.color)
  {
    if TypeOfIsUndefinedValue(req.x) || TypeOfIsUndefinedValue(req.y) then Some(MissingCoordinate)
    else if !Truthy(req.color) then Some(MissingColor)
    else if !isColor(req.color) then Some(InvalidColor)
    else None
  }

  /** The row the table receives for a request that passed validation:
      integer coordinates and a string color. Any other combination is an
      upsert the database does not commit. */
  function RowOf(req: PaintRequest): Option<Tile>
  {
    if req.x.Num? && req.y.Num? && req.color.Str? then Some(Tile(req.x.n, req.y.n, req.color.s))
    else None
  }

  /** A color the table may hold: one that passed both color checks. */
  predicate StorableColor(isColor: JsValue -> bool, c: string)
  {
    Truthy(Str(c)) && isColor(Str(c))
  }

  predicate ColorsValid(isColor: JsValue -> bool, m: Table)
  {
    forall k :: k in m ==> StorableColor(isColor, m[k])
  }

  /** The effect of one request: the outcome, the table afterwards and the
      events appended to the broadcast stream. */
  datatype Step = Step(outcome: Outcome, tiles: Table, emitted: seq<Tile>)

  /** One request against table `m`; `committed` says whether the database
      reports the upsert as done. */
  function PaintStep(isColor: JsValue -> bool, m: Table, req: PaintRequest, committed: bool): (s: Step)
    ensures s.outcome != Rejected(MissingCoordinate)
    ensures s.outcome.Painted? <==> Validate(isColor, req).None? && RowOf(req).Some? && committed
    ensures s.outcome.Painted? ==>
      && req.x.Num? && req.y.Num? && req.color.Str?
      && Lookup(s.tiles, (req.x.n, req.y.n)) == Some(req.color.s)
      && (forall k :: k != (req.x.n, req.y.n) ==> Lookup(s.tiles, k) == Lookup(m, k))
      && s.emitted == [Tile(req.x.n, req.y.n, req.color.s)]
    ensures !s.outcome.Painted? ==> s.tiles == m && s.emitted == []
    ensures Validate(isColor, req).Some? ==> s.outcome == Rejected(Validate(isColor, req).value)
    ensures Validate(isColor, req).None? && !s.outcome.Painted? ==> s.outcome == Rejected(Internal)
    ensures ColorsValid(isColor, m) ==> ColorsValid(isColor, s.tiles)
  {
    var check := Validate(isColor, req);
    if check.Some? then Step(Rejected(check.value), m, [])
    else
      var row := RowOf(req);
      if row.None? || !committed then Step(Rejected(Internal), m, [])
      else Step(Painted, Upsert(m, row.value), [row.value])
  }

  /** A falsy color is refused as MissingColor whatever the color predicate
      says: the predicate is not consulted. */
  lemma MissingColorBeforePredicate(p: JsValue -> bool, q: JsValue -> bool, m: Table, req: PaintRequest, committed: bool)
    requires !Truthy(req.color)
    ensures PaintStep(p, m, req, committed) == PaintStep(q, m, req, committed) == Step(Rejected(MissingColor), m, [])
  {
  }

  /** Painting the same request twice leaves the table as painting it once,
      whether or not the second upsert commits. */
  lemma PaintIdempotent(isColor: JsValue -> bool, m: Table, req: PaintRequest, again: bool)
    ensures var once := PaintStep(isColor, m, req, true);
      PaintStep(isColor, once.tiles, req, again).tiles == once.tiles
  {
  }

  /** The tile store: the table and the stream of broadcast events. */
  class TileStore {
    /** The `is-color` predicate, whose definition is not part of this model. */
    const isColor: JsValue -> bool
    var tiles: Table
    var broadcasts: seq<Tile>

    /** The table holds only colors that passed both color checks, and so
        does every event that was broadcast; and last write wins: at every
        coordinate the table holds the color of the last event broadcast for
        it, and nothing where no event was broadcast. */
    ghost predicate Valid()
      reads this
    {
      && ColorsValid(isColor, tiles)
      && (forall i :: 0 <= i < |broadcasts| ==> StorableColor(isColor, broadcasts[i].color))
      && forall k :: Lookup(tiles, k) == LatestColor(broadcasts, k, None)
    }

    constructor (isColor: JsValue -> bool)
      ensures Valid()
      ensures this.isColor == isColor && tiles == map[] && broadcasts == []
    {
      this.isColor := isColor;
      tiles := map[];
      broadcasts := [];
    }

    /** Handle one `POST /tile`: validate, upsert, and on a committed upsert
        emit `{x, y, color}` to every connected client. */
    method Paint(req: PaintRequest, committed: bool) returns (r: Outcome)
      requires Valid()
      modifies this
      ensures Valid()
      ensures var s := PaintStep(isColor, old(tiles), req, committed);
        && r == s.outcome
        && tiles == s.tiles
        && broadcasts == old(broadcasts) + s.emitted
    {
      var check := Validate(isColor, req);
      if check.Some? {
        return Rejected(check.value);
      }
      var row := RowOf(req);
      if row.None? || !committed {
        return Rejected(Internal);
      }
      ghost var before := broadcasts;
      tiles := Upsert(tiles, row.value);
      broadcasts := broadcasts + [row.value];
      r := Painted;
      forall k ensures Lookup(tiles, k) == LatestColor(broadcasts, k, None) {
        LatestColorAppend(before, [row.value], k, None);
        assert [row.value][..0] == [];
      }
    }
  }
}
