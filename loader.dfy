/** `load_graph_from_txt`: the eight per-timestep graphs of one file,
    built in place, record by record. */
module Loader {
  import opened Errors
  import opened Areas
  import opened Records
  import opened LoadSpec

  /** The records of a file: every line but the first, which is a header
      and is never read as a record. `parse` stands for splitting a line and
      converting its four fields to numbers. */
  function RecordsOf<L, W>(lines: seq<L>, parse: L -> Record<W>): (recs: seq<Record<W>>)
    ensures |lines| == 0 ==> recs == []
    ensures |lines| > 0 ==> |recs| == |lines| - 1 && forall i :: 0 <= i < |recs| ==> recs[i] == parse(lines[i + 1])
  {
    if |lines| == 0 then [] else seq(|lines| - 1, i requires 0 <= i < |lines| - 1 => parse(lines[i + 1]))
  }

  /** Builds the eight graphs of a file in an array, updating the graph a
      record selects in place; the first record on an unordered pair wins,
      and the first record that raises ends the load with its error. */
  method Load<L, W>(lines: seq<L>, parse: L -> Record<W>) returns (res: Result<seq<Graph<W>>>)
    ensures res == Expected(RecordsOf(lines, parse))
    ensures res.Ok? ==> |res.value| == Timesteps
  {
    var graphs := new Graph<W>[Timesteps](_ => Graph(map[], map[]));
    var recs := RecordsOf(lines, parse);
    assert graphs[..] == Initial();
    var k := 0;
    while k < |recs|
      invariant 0 <= k <= |recs|
      invariant Run(recs[..k]) == Ok(graphs[..])
    {
      var r := recs[k];
      assert recs[..k + 1] == recs[..k] + [r];
      var slot := Slot(r.time);
      if slot.Err? {
        res := Err(slot.error);
        RunErrorPersists(recs, k + 1);
        RunIsExpected(recs);
        return;
      }
      var t := slot.value;
      var g := graphs[t];
      if EdgeOf(r) in g.edges {
        k := k + 1;
        continue;
      }
      var area1 := NodeLocation(r.n1);
      if area1.Err? {
        res := Err(area1.error);
        RunErrorPersists(recs, k + 1);
        RunIsExpected(recs);
        return;
      }
      var area2 := NodeLocation(r.n2);
      if area2.Err? {
        res := Err(area2.error);
        RunErrorPersists(recs, k + 1);
        RunIsExpected(recs);
        return;
      }
      graphs[t] := Graph(g.edges[EdgeOf(r) := r.weight], g.areas[r.n1 := area1.value][r.n2 := area2.value]);
      k := k + 1;
    }
    assert recs[..k] == recs;
    res := Ok(graphs[..]);
    RunIsExpected(recs);
  }
}
