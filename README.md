# Brain-network graph conversion, modelled in Dafny

This project models the conversion stage of a brain-network analysis
pipeline (`convert_graphs.py`). The stage has two parts:

- **`node_location`** sorts the 100 parcellation nodes into seven functional
  networks: vis, somot, dorsattn, ventattn, limbic, control and default.
  Each network has one range of node ids in the left hemisphere (1..50) and
  one in the right hemisphere (51..100). Any other id raises `ValueError`.
  A comment above the function gives the same table as 0-based inclusive
  ranges plus one.
- **`load_graph_from_txt`** reads a file of records `n1 n2 time weight`
  after one header line. It builds eight undirected graphs, one per
  timestep. Record `time` goes to graph `time - 1`. A record whose
  unordered pair already has an edge in that graph is skipped, so the first
  record wins. Otherwise both endpoints are added with their `area` and the
  edge is added with its weight.

Modules:

- `Errors` (errors.dfy): the two exceptions the core raises, and a `Result` type.
- `Areas` (areas.dfy): `NodeLocation`, the comment table as a reference
  (`TableSpans`), and the partition lemmas.
- `Records` (records.dfy): records, normalised undirected edge keys, graphs
  (an edge map plus a node-to-area map), graph selection (`Slot`), one loop
  iteration (`Step`) and the loop as a fold over the records (`Run`).
- `LoadSpec` (load_spec.dfy): `Expected`, a declarative description of the
  result. Each graph's edges are the pairs of its timestep's records, each
  weighted by the earliest such record. Its nodes are their endpoints, each
  tagged with its area. A failed load reports the error of the first record
  that raises. `RunIsExpected` proves that the fold produces exactly this.
- `Loader` (loader.dfy): `Load`, the imperative loop. It allocates an array
  of eight graphs and updates the selected slot in place. It is proved equal
  to `Expected` on the records after the header.

Two behaviours of the code are kept as they are:

- `graphs[time - 1]` is Python list indexing. Times 1..8 select graphs 0..7.
  Times -7..0 also select a graph, through negative indexing: time 0 selects
  graph 7. Every other time raises `IndexError`. `Slot` models all three
  cases and does not require `1 <= time <= 8`.
- When `n2` is invalid, the code has already added `n1` to the graph before
  `ValueError` is raised. The exception leaves the function and the local
  list of graphs is lost, so no caller can see that partial update. The
  model returns the error alone.

A skipped duplicate can never hide an invalid node id. An existing edge
means both of its endpoints were already checked. The declarative
`Expected` therefore fails exactly when some record has a bad time or a bad
node id.

## Model

| member | source | states |
|---|---|---|
| `Areas.NodeLocation` | convert_graphs.py:17-32 | returns an area exactly for node ids 1..100; every other id is rejected with `InvalidNode(node)` (the `ValueError`) |
| `Areas.Name` | convert_graphs.py:19-31 | the `area` string stored for each of the seven areas ("vis", "somot", "dorsattn", "ventattn", "limbic", "control", "default"), each a non-empty lower-case word; `Areas.NamesDistinct` proves the seven are distinct |
| `Areas.NamesDistinct` | convert_graphs.py:18-31 | the seven areas carry seven distinct names |
| `Areas.NodeLocationMatchesTable` | convert_graphs.py:10-31 | `node_location` answers area `a` exactly for the ids in `a`'s two commented 0-based ranges shifted by one |
| `Areas.TableDisjoint` | convert_graphs.py:10-16 | the ranges of two different areas share no node id |
| `Areas.TableCovers` | convert_graphs.py:10-16 | the union of all ranges is exactly the ids 1..100 |
| `Areas.TableHemispheres` | convert_graphs.py:10-16 | each area has a non-empty range in the left hemisphere (indices 0..49) and one in the right (50..99) |
| `Areas.NodeLocationPartition` | convert_graphs.py:17-32 | every id in 1..100 is given exactly one area, the one the table assigns; no id outside 1..100 is in the table |
| `Records.Key` | convert_graphs.py:50-55 | the edge key of a node pair is ordered and made of the two endpoints |
| `Records.KeyUnordered` | convert_graphs.py:50-55 | two node pairs have the same key exactly when they are the same unordered pair, as in an undirected graph |
| `Records.Initial` | convert_graphs.py:36 | the load starts from eight graphs with no nodes and no edges |
| `Records.Slot` | convert_graphs.py:44-47 | `graphs[time - 1]` selects graph `time - 1` for times 1..8 and graph `time + 7` for times -7..0; every other time raises `IndexError` |
| `Records.Step` | convert_graphs.py:41-55 | one record raises only for a bad time, then a bad `n1`, then a bad `n2`; it leaves all graphs unchanged when its pair already has an edge in the selected graph, and otherwise, with both node ids valid, it is accepted and adds the edge with its weight and both endpoints with their area; in every accepted case the other seven graphs are unchanged |
| `Records.StepUndirected` | convert_graphs.py:50-55 | swapping a record's two node ids does not change what an accepted record does |
| `Records.Run` | convert_graphs.py:36-57 | processing any sequence of records yields exactly eight graphs when it succeeds |
| `Records.RunErrorPersists` | convert_graphs.py:40-55 | once a record raises, later records are not processed and the whole load fails with that error |
| `LoadSpec.FirstWeightIsEarliest` | convert_graphs.py:50-51 | the weight kept for an edge is that of the earliest record of its timestep on that unordered pair |
| `LoadSpec.FirstErrorIsEarliest` | convert_graphs.py:44-54 | the error reported for a file is that of the earliest record that raises |
| `LoadSpec.ExpectedEdges` | convert_graphs.py:47-55 | graph `t` has an edge exactly for each unordered pair of a record with that timestep, weighted by the earliest such record |
| `LoadSpec.ExpectedNodes` | convert_graphs.py:53-54 | graph `t` has exactly the endpoints of that timestep's records as nodes, each tagged with `node_location` of it |
| `LoadSpec.RunIsExpected` | convert_graphs.py:40-55 | processing the records one by one, with first-edge-wins and early exit on errors, yields exactly the declarative result |
| `Loader.RecordsOf` | convert_graphs.py:38-45 | the records are all lines but the first, in order; the header is never read as a record, and an empty file has no records |
| `Loader.Load` | convert_graphs.py:35-57 | the in-place loop over an array of eight graphs returns exactly the declarative result for the file's records, and eight graphs whenever it succeeds |

## Left out

- File I/O is not modelled: opening and reading the file, writing GEXF files, creating and listing directories, and printing progress. A file is a sequence of lines.
- Splitting a line and `int(...)`/`float(...)` are a total parameter `parse` from a line to a record. The `ValueError` and `IndexError` that malformed text would raise are not modelled.
- The weight is a type parameter. The code only stores it and never computes with it.
- networkx is replaced by a graph made of an edge map keyed by normalised unordered pairs and a node-to-area map. Other node and edge attributes and GEXF serialisation are not modelled.
- `convert_grpahs` and `convert_all` are not modelled. They only name output files and drive file I/O.
- The community-detection and classification stages of the repository are not part of this model. Their source is not among the modelled files.
