/** The size and mass of graph nodes, recalculated from the number of their edges. */
module NodeSize {
  import opened Wrappers

  /** One edge more: the larger the node, the smaller the increase. */
  function Grown(size: real): real
    requires size > 0.0
  {
    size + 1.0 / (size / 30.0)
  }

  lemma GrowthPositive(size: real)
    requires size > 0.0
    ensures Grown(size) == size + 30.0 / size
    ensures Grown(size) > size
  {
    var q := size / 30.0;
    assert q > 0.0;
    var r := 1.0 / q;
    assert r * q == 1.0;
    assert r * size == 30.0;
    assert r == 30.0 / size;
  }

  const MAX := 100.0

  /** The size after n edges, as long as it does not exceed the maximum. */
  function Uncut(start: real, n: nat): (r: Option<real>)
    requires start > 0.0
    ensures r.Some? ==> r.value >= start
  {
    if n == 0 then Some(start)
    else
      match Uncut(start, n - 1)
      case None => None
      case Some(size) =>
        GrowthPositive(size);
        if Grown(size) > MAX then None else Some(Grown(size))
  }

  function Size(start: real, n: nat): real
    requires start > 0.0
  {
    match Uncut(start, n)
    case Some(size) => size
    case None => MAX
  }

  function Mass(start: real, n: nat): real
    requires start > 0.0
  {
    if n == 0 then 1.0
    else
      match Uncut(start, n)
      case Some(size) => size / 15.0
      case None => 15.0
  }

  class GraphNode {
    const edges: nat
    var size: real
    var mass: real

    constructor (edges: nat, size: real, mass: real)
      ensures this.edges == edges && this.size == size && this.mass == mass
    {
      this.edges, this.size, this.mass := edges, size, mass;
    }
  }

  /** Once over the maximum the size stays there. */
  lemma {:induction false} CutForGood(start: real, n: nat, m: nat)
    requires start > 0.0 && n <= m && Uncut(start, n).None?
    ensures Uncut(start, m).None?
    decreases m
  {
    hide Grown;
    if n < m {
      CutForGood(start, n, m - 1);
    }
  }

  method Calculate(edges: nat, start: real) returns (size: real, mass: real)
    requires start > 0.0
    ensures size == Size(start, edges) && mass == Mass(start, edges)
  {
    var n := edges;
    size, mass := start, 1.0;
    while n != 0
      invariant 0 <= n <= edges
      invariant Uncut(start, edges - n) == Some(size)
      invariant mass == Mass(start, edges - n)
      decreases n
    {
      GrowthPositive(size);
      n := n - 1;
      size := size + 1.0 / (size / 30.0);
      mass := size / 15.0;
      if size > 100.0 {
        size := 100.0;
        mass := 15.0;
        CutForGood(start, edges - n, edges);
        break;
      }
    }
  }

  method RecalculateSizes(nodes: seq<GraphNode>, start: real)
    requires start > 0.0
    modifies nodes
    ensures forall i | 0 <= i < |nodes| ::
              nodes[i].size == Size(start, nodes[i].edges) && nodes[i].mass == Mass(start, nodes[i].edges)
  {
    for i := 0 to |nodes|
      invariant forall j | 0 <= j < i ::
                  nodes[j].size == Size(start, nodes[j].edges) && nodes[j].mass == Mass(start, nodes[j].edges)
    {
      var size, mass := Calculate(nodes[i].edges, start);
      nodes[i].size := size;
      nodes[i].mass := mass;
    }
  }

  // ---------- bounds, growth and the cap ----------

  lemma SizeInRange(start: real, n: nat)
    requires 0.0 < start <= MAX
    ensures start <= Size(start, n) <= MAX
  {
  }

  lemma {:induction false} MoreEdgesNotSmaller(start: real, n: nat, m: nat)
    requires 0.0 < start <= MAX && n <= m
    ensures Size(start, n) <= Size(start, m)
    decreases m
  {
    if n < m {
      MoreEdgesNotSmaller(start, n, m - 1);
      OneEdgeMore(start, m - 1);
    }
  }

  lemma OneEdgeMore(start: real, n: nat)
    requires 0.0 < start <= MAX
    ensures Size(start, n) <= Size(start, n + 1)
  {
    SizeInRange(start, n);
    if Uncut(start, n).Some? {
      GrowthPositive(Uncut(start, n).value);
    }
  }

  lemma SquareGrows(size: real)
    requires size > 0.0
    ensures Grown(size) * Grown(size) >= size * size + 60.0
  {
    GrowthPositive(size);
    var d := 30.0 / size;
    assert d * size == 30.0;
    assert (size + d) * (size + d) == size * size + 2.0 * (d * size) + d * d;
    assert d * d >= 0.0;
  }

  /** Below the maximum the square of the size grows by at least 60 with every edge. */
  lemma {:induction false} SquareBound(start: real, n: nat)
    requires start > 0.0 && Uncut(start, n).Some?
    ensures Size(start, n) * Size(start, n) >= start * start + 60.0 * n as real
  {
    if n > 0 {
      SquareBound(start, n - 1);
      SquareGrows(Uncut(start, n - 1).value);
    }
  }

  lemma FloorExceeded(y: real, n: nat)
    requires n >= (y / 60.0).Floor + 1
    ensures 60.0 * n as real > y
  {
    assert n as real > y / 60.0;
  }

  lemma ProductNonNegative(a: real, b: real)
    requires a >= 0.0 && b >= 0.0
    ensures a * b >= 0.0
  {
  }

  lemma SquareAtMost(s: real)
    requires 0.0 <= s <= MAX
    ensures s * s <= 10000.0
  {
    ProductNonNegative(s, MAX - s);
    assert s * s == s * MAX - s * (MAX - s);
  }

  /** Enough edges always bring the node to its full size, and more leave it there. */
  lemma CapReached(start: real, n: nat)
    requires 0.0 < start <= MAX
    requires n >= ((10000.0 - start * start) / 60.0).Floor + 1
    ensures Uncut(start, n).None? && Size(start, n) == MAX
  {
    FloorExceeded(10000.0 - start * start, n);
    if Uncut(start, n).Some? {
      SquareBound(start, n);
      SizeInRange(start, n);
      SquareAtMost(Size(start, n));
      assert false;
    }
  }

  // ---------- edge by edge ----------

  /** Every edge adds 30 divided by the size, up to 100; the mass is a fifteenth of the size, and 15 once it is cut. */
  lemma EdgeByEdge(start: real, n: nat)
    requires 0.0 < start <= 100.0
    ensures Size(start, 0) == start && Mass(start, 0) == 1.0
    ensures var s := Size(start, n);
            && s > 0.0
            && Size(start, n + 1) == (if s + 30.0 / s > 100.0 then 100.0 else s + 30.0 / s)
            && Mass(start, n + 1) == if s + 30.0 / s > 100.0 then 15.0 else (s + 30.0 / s) / 15.0
  {
    SizeInRange(start, n);
    GrowthPositive(Size(start, n));
    if Uncut(start, n).None? {
      GrowthPositive(100.0);
    }
  }
}
