/** The system's example runs, stated over the model. */
module Scenarios {
  import opened JsValues
  import opened Tiles
  import opened Queries
  import opened Pipeline
  import opened Broadcast

  /** Paint (5, 5) red on an empty canvas: the box (0, 0, 10, 10) returns
      exactly that tile, the box (6, 6, 10, 10) returns nothing. */
  lemma PaintThenQueryBox(isColor: JsValue -> bool)
    requires isColor(Str("#ff0000"))
    ensures var s := PaintStep(isColor, map[], PaintRequest(Num(5), Num(5), Str("#ff0000")), true);
      && s.outcome == Painted
      && TilesInBox(s.tiles, Box(Finite(0), Finite(0), Finite(10), Finite(10)), true) == Found([Tile(5, 5, "#ff0000")])
      && TilesInBox(s.tiles, Box(Finite(6), Finite(6), Finite(10), Finite(10)), true) == Found([])
  {
  }

  /** Blue then green at (1, 1), both committed: every client sees blue
      before green, and the table ends up green. */
  lemma BlueThenGreen(isColor: JsValue -> bool, m: Table)
    requires isColor(Str("blue")) && isColor(Str("green"))
    ensures var r := Replay(isColor, m, [Write(PaintRequest(Num(1), Num(1), Str("blue")), true),
                                         Write(PaintRequest(Num(1), Num(1), Str("green")), true)]);
      && r.log == [Tile(1, 1, "blue"), Tile(1, 1, "green")]
      && Lookup(r.tiles, (1, 1)) == Some("green")
  {
  }

  /** "notacolor" is refused as InvalidColor and touches neither the table
      nor the broadcast stream. */
  lemma NotAColorRefused(isColor: JsValue -> bool, m: Table, committed: bool)
    requires !isColor(Str("notacolor"))
    ensures PaintStep(isColor, m, PaintRequest(Num(1), Num(1), Str("notacolor")), committed)
      == Step(Rejected(InvalidColor), m, [])
  {
  }

  /** A body without `x` passes the coordinate guard: the request is not
      refused as MissingCoordinate but reaches the upsert, which the model
      treats as an upsert that does not commit. */
  lemma MissingXNotRejectedByGuard(isColor: JsValue -> bool, m: Table)
    requires isColor(Str("blue"))
    ensures Validate(isColor, PaintRequest(Undefined, Num(1), Str("blue"))) == None
    ensures PaintStep(isColor, m, PaintRequest(Undefined, Num(1), Str("blue")), true)
      == Step(Rejected(Internal), m, [])
  {
  }
}
