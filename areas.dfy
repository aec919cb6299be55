/** The brain-area classification of the 100 parcellation nodes
    (`node_location` in convert_graphs.py). */
module Areas {
  import opened Errors

  /** The seven functional networks, each present in both hemispheres. */
  datatype Area = Vis | Somot | DorsAttn | VentAttn | Limbic | Control | Default

  /** The string `node_location` returns and convert_graphs.py stores as the node's `area` attribute. */
  function Name(a: Area): (s: string)
    ensures |s| > 0 && forall i :: 0 <= i < |s| ==> 'a' <= s[i] <= 'z'
  {
    match a
    case Vis => "vis"
    case Somot => "somot"
    case DorsAttn => "dorsattn"
    case VentAttn => "ventattn"
    case Limbic => "limbic"
    case Control => "control"
    case Default => "default"
  }

  /** Distinct areas carry distinct names, so the seven names are exactly seven. */
  lemma NamesDistinct(a: Area, b: Area)
    ensures Name(a) == Name(b) <==> a == b
  {
  }

  /** The chain of range tests of `node_location`, on 1-based node ids: the
      left hemisphere is 1..50, the right one 51..100. */
  function NodeLocation(node: int): (r: Result<Area>)
    ensures r.Ok? <==> 1 <= node <= 100
    ensures r.Err? ==> r.error == InvalidNode(node)
  {
    if 1 <= node <= 9 || 51 <= node <= 58 then Ok(Vis)
    else if 10 <= node <= 15 || 59 <= node <= 66 then Ok(Somot)
    else if 16 <= node <= 23 || 67 <= node <= 73 then Ok(DorsAttn)
    else if 24 <= node <= 30 || 74 <= node <= 78 then Ok(VentAttn)
    else if 31 <= node <= 33 || 79 <= node <= 80 then Ok(Limbic)
    else if 34 <= node <= 37 || 81 <= node <= 89 then Ok(Control)
    else if 38 <= node <= 50 || 90 <= node <= 100 then Ok(Default)
    else Err(InvalidNode(node))
  }

  /** An inclusive range `lo:hi`, as written in the comment table above `node_location`. */
  datatype Span = Span(lo: int, hi: int)
  {
    predicate Contains(i: int) { lo <= i <= hi }
  }

  /** The comment table: each area's left- and right-hemisphere ranges of
      0-based node indices (the table adds one to obtain node ids). */
  function TableSpans(a: Area): (Span, Span)
  {
    match a
    case Vis => (Span(0, 8), Span(50, 57))
    case Somot => (Span(9, 14), Span(58, 65))
    case DorsAttn => (Span(15, 22), Span(66, 72))
    case VentAttn => (Span(23, 29), Span(73, 77))
    case Limbic => (Span(30, 32), Span(78, 79))
    case Control => (Span(33, 36), Span(80, 88))
    case Default => (Span(37, 49), Span(89, 99))
  }

  /** Node id `node` (1-based) belongs to area `a` according to the table. */
  predicate InTable(a: Area, node: int)
  {
    TableSpans(a).0.Contains(node - 1) || TableSpans(a).1.Contains(node - 1)
  }

  /** Every area has a non-empty range in each hemisphere: the left one
      inside indices 0..49, the right one inside 50..99. */
  lemma TableHemispheres(a: Area)
    ensures 0 <= TableSpans(a).0.lo <= TableSpans(a).0.hi < 50
    ensures 50 <= TableSpans(a).1.lo <= TableSpans(a).1.hi < 100
  {
  }

  /** The table's ranges are pairwise disjoint. */
  lemma TableDisjoint(a: Area, b: Area, node: int)
    requires a != b
    ensures !(InTable(a, node) && InTable(b, node))
  {
  }

  /** The table's ranges cover exactly the node ids 1..100. */
  lemma TableCovers(node: int)
    ensures (exists a :: InTable(a, node)) <==> 1 <= node <= 100
  {
    if 1 <= node <= 100 {
      var r := NodeLocation(node);
      NodeLocationMatchesTable(node, r.value);
    }
  }

  /** `NodeLocation` is the comment table shifted by one: it answers `a`
      exactly for the node ids the table assigns to `a`. */
  lemma NodeLocationMatchesTable(node: int, a: Area)
    ensures NodeLocation(node) == Ok(a) <==> InTable(a, node)
  {
  }

  /** Hence `NodeLocation` is a partition of 1..100 into the seven areas:
      every node id in range gets exactly one area, every other id is rejected. */
  lemma NodeLocationPartition(node: int)
    ensures 1 <= node <= 100 ==> exists a :: NodeLocation(node) == Ok(a) && forall b :: InTable(b, node) <==> b == a
    ensures !(1 <= node <= 100) ==> forall a :: !InTable(a, node)
  {
    if 1 <= node <= 100 {
      var a := NodeLocation(node).value;
      forall b
        ensures InTable(b, node) <==> b == a
      {
        NodeLocationMatchesTable(node, b);
      }
    } else {
      TableCovers(node);
    }
  }
}
