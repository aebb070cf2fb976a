/** The broadcast stream seen over a run of paint requests handled one
    after another: the events come out in commit order, and the table ends
    up holding, at each coordinate, the color of the last event for it. */
module Broadcast {
  import opened JsValues
  import opened Tiles
  import opened Pipeline

  /** A request together with whether the database committed its upsert. */
  datatype Write = Write(req: PaintRequest, committed: bool)

  /** The table and the broadcast events after a run of writes. */
  datatype Run = Run(tiles: Table, log: seq<Tile>)

  function Replay(isColor: JsValue -> bool, m: Table, ws: seq<Write>): Run
    decreases |ws|
  {
    if ws == [] then Run(m, [])
    else
      var prev := Replay(isColor, m, ws[..|ws| - 1]);
      var s := PaintStep(isColor, prev.tiles, ws[|ws| - 1].req, ws[|ws| - 1].committed);
      Run(s.tiles, prev.log + s.emitted)
  }

  /** Last write wins: at every coordinate the table holds the color of the
      last broadcast event for it, or what it held before the run when no
      event for it was broadcast. */
  lemma {:induction false} LastBroadcastWins(isColor: JsValue -> bool, m: Table, ws: seq<Write>, k: Coord)
    ensures var r := Replay(isColor, m, ws);
      Lookup(r.tiles, k) == LatestColor(r.log, k, Lookup(m, k))
    decreases |ws|
  {
    if ws != [] {
      var prev := Replay(isColor, m, ws[..|ws| - 1]);
      var w := ws[|ws| - 1];
      var s := PaintStep(isColor, prev.tiles, w.req, w.committed);
      LastBroadcastWins(isColor, m, ws[..|ws| - 1], k);
      LatestColorAppend(prev.log, s.emitted, k, Lookup(m, k));
      if s.emitted != [] {
        assert s.emitted[..0] == [];
      }
    }
  }

  /** Running two batches one after the other is running the whole: the
      second batch starts from the first batch's table, and its events come
      after every event of the first. */
  lemma {:induction false} ReplayConcat(isColor: JsValue -> bool, m: Table, ws1: seq<Write>, ws2: seq<Write>)
    ensures var r1 := Replay(isColor, m, ws1);
      var r2 := Replay(isColor, r1.tiles, ws2);
      Replay(isColor, m, ws1 + ws2) == Run(r2.tiles, r1.log + r2.log)
    decreases |ws2|
  {
    if ws2 == [] {
      assert ws1 + ws2 == ws1;
    } else {
      var init, w := ws2[..|ws2| - 1], ws2[|ws2| - 1];
      assert ws2 == init + [w];
      assert ws1 + ws2 == (ws1 + init) + [w];
      ReplayConcat(isColor, m, ws1, init);
      ReplaySnoc(isColor, m, ws1 + init, w);
      ReplaySnoc(isColor, Replay(isColor, m, ws1).tiles, init, w);
    }
  }

  /** One more write: its step starts from the table the earlier writes left,
      and its events follow theirs. */
  lemma ReplaySnoc(isColor: JsValue -> bool, m: Table, ws: seq<Write>, w: Write)
    ensures var prev := Replay(isColor, m, ws);
      var s := PaintStep(isColor, prev.tiles, w.req, w.committed);
      Replay(isColor, m, ws + [w]) == Run(s.tiles, prev.log + s.emitted)
  {
    assert (ws + [w])[..|ws + [w]| - 1] == ws;
  }

  /** Exactly one event per committed write: the log is as long as the number
      of writes that were painted, and never longer than the run. */
  function CountPainted(isColor: JsValue -> bool, m: Table, ws: seq<Write>): nat
    decreases |ws|
  {
    if ws == [] then 0
    else
      var prev := Replay(isColor, m, ws[..|ws| - 1]);
      var w := ws[|ws| - 1];
      CountPainted(isColor, m, ws[..|ws| - 1])
        + (if PaintStep(isColor, prev.tiles, w.req, w.committed).outcome.Painted? then 1 else 0)
  }

  lemma {:induction false} OneEventPerCommit(isColor: JsValue -> bool, m: Table, ws: seq<Write>)
    ensures |Replay(isColor, m, ws).log| == CountPainted(isColor, m, ws) <= |ws|
    decreases |ws|
  {
    if ws != [] {
      OneEventPerCommit(isColor, m, ws[..|ws| - 1]);
    }
  }
}
