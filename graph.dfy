/** The graph store of graph.rs: the node map, the edge list and the seeded
    random generator. */
module Graphs {
  import opened Nodes

  newtype u64 = x: int | 0 <= x < 0x1_0000_0000_0000_0000

  /** The PCG32 generator, identified by the 64-bit seed it was created from;
      its internal state and the numbers it yields are not modelled. */
  datatype Rng = SeededPcg32(seed: u64)

  /** The seed every graph's generator is created from. */
  const Seed: u64 := 48

  /** An edge: its two endpoint names and whether it is drawn. Edges are kept
      in registration order and may repeat. */
  type Edge = (string, string, bool)

  /** Nodes by name (so each name has at most one node), edges in order, and
      the generator. */
  datatype Graph = Graph(nodes: map<string, Node>, edges: seq<Edge>, rng: Rng)

  /** `Graph::new`: no nodes, no edges, and a generator seeded with 48, so
      every new graph starts in the same state. */
  function New(): (g: Graph)
    ensures g.nodes == map[] && |g.nodes| == 0
    ensures g.edges == []
    ensures g.rng == SeededPcg32(48)
  {
    Graph(map[], [], SeededPcg32(Seed))
  }
}
