/** One step of `load_graph_from_txt` per record, on values: the eight
    per-timestep graphs, how a record selects its graph, and the fold of the
    steps over all records of a file. */
module Records {
  import opened Errors
  import opened Areas

  /** One data line of a graph file: two node ids, a timestep and a weight.
      The weight is only stored, so its type is left open. */
  datatype Record<W> = Record(n1: int, n2: int, time: int, weight: W)

  /** An undirected edge, keyed by its endpoints in ascending order so that
      `{n1, n2}` and `{n2, n1}` are one key. A self-loop has `lo == hi`. */
  datatype Edge = Edge(lo: int, hi: int)

  function Key(a: int, b: int): (e: Edge)
    ensures e.lo <= e.hi
    ensures (e.lo == a && e.hi == b) || (e.lo == b && e.hi == a)
  {
    if a <= b then Edge(a, b) else Edge(b, a)
  }

  /** Two node pairs give the same key exactly when they are the same
      unordered pair. */
  lemma KeyUnordered(a: int, b: int, c: int, d: int)
    ensures Key(a, b) == Key(c, d) <==> (a == c && b == d) || (a == d && b == c)
  {
  }

  function EdgeOf<W>(r: Record<W>): Edge
  {
    Key(r.n1, r.n2)
  }

  /** An undirected graph as `load_graph_from_txt` builds it: weighted edges, and the
      `area` attribute of every node added. */
  datatype Graph<W> = Graph(edges: map<Edge, W>, areas: map<int, Area>)

  const Timesteps: nat := 8

  function Initial<W>(): (gs: seq<Graph<W>>)
    ensures |gs| == Timesteps
    ensures forall t :: 0 <= t < |gs| ==> gs[t].edges == map[] && gs[t].areas == map[]
  {
    seq(Timesteps, _ => Graph(map[], map[]))
  }

  /** The graph that `graphs[time - 1]` selects in a list of eight, with
      Python's negative indexing: times 1..8 select graphs 0..7, times
      -7..0 wrap around to graphs 0..7, and any other time is an IndexError. */
  function Slot(time: int): (s: Result<nat>)
    ensures s.Ok? <==> -7 <= time <= 8
    ensures s.Ok? ==> s.value < Timesteps
    ensures s.Ok? && time >= 1 ==> s.value == time - 1
    ensures s.Ok? && time <= 0 ==> s.value == time + 7
    ensures s.Err? ==> s.error == TimeOutOfRange(time)
  {
    var i := time - 1;
    if 0 <= i < Timesteps then Ok(i)
    else if -(Timesteps as int) <= i < 0 then Ok(i + Timesteps)
    else Err(TimeOutOfRange(time))
  }

  /** Processing one record: select the graph, skip the record if the
      unordered pair already has an edge there (the first edge wins),
      otherwise tag both endpoints with their area and add the edge. */
  function Step<W>(gs: seq<Graph<W>>, r: Record<W>): (res: Result<seq<Graph<W>>>)
    requires |gs| == Timesteps
    ensures res.Ok? ==> |res.value| == Timesteps
    ensures Slot(r.time).Err? ==> res == Err(TimeOutOfRange(r.time))
    ensures Slot(r.time).Ok? && EdgeOf(r) in gs[Slot(r.time).value].edges ==> res == Ok(gs)
    ensures res.Ok? ==> forall t :: 0 <= t < Timesteps && Slot(r.time) != Ok(t) ==> res.value[t] == gs[t]
    ensures Slot(r.time).Ok? && EdgeOf(r) !in gs[Slot(r.time).value].edges ==>
              (res.Ok? <==> NodeLocation(r.n1).Ok? && NodeLocation(r.n2).Ok?)
    ensures res.Ok? && Slot(r.time).Ok? && EdgeOf(r) !in gs[Slot(r.time).value].edges ==>
              var g, g' := gs[Slot(r.time).value], res.value[Slot(r.time).value];
              && NodeLocation(r.n1).Ok? && NodeLocation(r.n2).Ok?
              && g'.edges == g.edges[EdgeOf(r) := r.weight]
              && g'.areas == g.areas[r.n1 := NodeLocation(r.n1).value][r.n2 := NodeLocation(r.n2).value]
    ensures res.Err? && Slot(r.time).Ok? ==>
              res.error == (if NodeLocation(r.n1).Err? then InvalidNode(r.n1) else InvalidNode(r.n2))
  {
    match Slot(r.time)
    case Err(e) => Err(e)
    case Ok(t) =>
      var g := gs[t];
      if EdgeOf(r) in g.edges then Ok(gs)
      else
        match NodeLocation(r.n1)
        case Err(e) => Err(e)
        case Ok(a1) =>
          match NodeLocation(r.n2)
          case Err(e) => Err(e)
          case Ok(a2) =>
            Ok(gs[t := Graph(g.edges[EdgeOf(r) := r.weight], g.areas[r.n1 := a1][r.n2 := a2])])
  }

  /** Swapping the two endpoints of a record that is accepted changes nothing:
      the graphs are undirected. */
  lemma StepUndirected<W>(gs: seq<Graph<W>>, r: Record<W>)
    requires |gs| == Timesteps
    requires Step(gs, r).Ok?
    ensures Step(gs, r.(n1 := r.n2, n2 := r.n1)) == Step(gs, r)
  {
    var s := r.(n1 := r.n2, n2 := r.n1);
    KeyUnordered(r.n1, r.n2, s.n1, s.n2);
    if Step(gs, r) != Ok(gs) {
      var t := Slot(r.time).value;
      var g := gs[t];
      var a1, a2 := NodeLocation(r.n1).value, NodeLocation(r.n2).value;
      assert g.areas[r.n1 := a1][r.n2 := a2] == g.areas[r.n2 := a2][r.n1 := a1];
    }
  }

  /** The graphs after the records `recs`, processed in order from the
      first, or the error of the first record that raises. */
  function Run<W>(recs: seq<Record<W>>): (res: Result<seq<Graph<W>>>)
    ensures res.Ok? ==> |res.value| == Timesteps
  {
    if recs == [] then Ok(Initial())
    else
      match Run(recs[..|recs| - 1])
      case Err(e) => Err(e)
      case Ok(gs) => Step(gs, recs[|recs| - 1])
  }

  /** Once a record raises, no later record is processed: the error is
      the result of the whole file. */
  lemma {:induction false} RunErrorPersists<W>(recs: seq<Record<W>>, k: nat)
    requires k <= |recs|
    requires Run(recs[..k]).Err?
    ensures Run(recs) == Run(recs[..k])
  {
    if k < |recs| {
      var pre := recs[..|recs| - 1];
      assert pre[..k] == recs[..k];
      RunErrorPersists(pre, k);
    } else {
      assert recs[..k] == recs;
    }
  }
}
