/** DensityToEdgeConverter: edge counts for a density factor. The Java
    products are int arithmetic; this model computes them unbounded. */
module DensityConverter {
  import opened JavaInt
  import DirectedUndirectedGenerator

  /** UndirectedConverter(v, density): density * v * (v - 1) / 2. The
      division is exact, since v(v - 1) is even, and the count is never
      negative for a non-negative density. */
  function Undirected(v: int, density: int): (edges: int)
    ensures edges + edges == density * v * (v - 1)
    ensures density >= 0 ==> edges >= 0
  {
    DirectedUndirectedGenerator.ProductOfConsecutive(v);
    var m := v * (v - 1) / 2;
    assert density * v * (v - 1) == 2 * (density * m);
    Half(density * v * (v - 1))
  }

  /** DirectedConverter(v, density): density * v * (v - 1), twice the
      undirected count. */
  function Directed(v: int, density: int): (edges: int)
    ensures edges == 2 * Undirected(v, density)
  {
    density * v * (v - 1)
  }

  /** BipartiteConverter(n, u, density): density * u * (n - u). */
  function Bipartite(n: int, u: int, density: int): (edges: int)
    ensures density >= 0 && 0 <= u <= n ==> edges >= 0
  {
    density * u * (n - u)
  }

  /** Swapping the two sides of a bipartition gives the same count. */
  lemma BipartiteSymmetric(n: int, u: int, density: int)
    ensures Bipartite(n, n - u, density) == Bipartite(n, u, density)
  {
    assert density * (n - u) * (n - (n - u)) == density * u * (n - u);
  }

  /** A density of 0 gives no edges; so do zero or one vertices. */
  lemma NoEdges(v: int, n: int, u: int, density: int)
    ensures density == 0 ==> Undirected(v, density) == 0 && Directed(v, density) == 0 && Bipartite(n, u, density) == 0
    ensures v == 0 || v == 1 ==> Undirected(v, density) == 0 && Directed(v, density) == 0
  {
  }
}
