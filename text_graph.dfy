/** The `Graph` object that groups text proposals into lines: it holds the
    boolean adjacency matrix and walks it in place. */
module TextGraph {
  import opened LineChains

  class Graph {
    /** `graph[i, j]` is true when proposal i precedes proposal j. */
    var graph: array2<bool>

    constructor (graph: array2<bool>)
      ensures this.graph == graph
    {
      this.graph := graph;
    }

    /** The matrix as a value, row by row. */
    ghost function Matrix(): (m: seq<seq<bool>>)
      reads this, graph
      ensures |m| == graph.Length0
      ensures forall i :: 0 <= i < |m| ==> |m[i]| == graph.Length1
      ensures forall i, j :: 0 <= i < graph.Length0 && 0 <= j < graph.Length1 ==> m[i][j] == graph[i, j]
    {
      var g := graph;
      seq(g.Length0, i requires 0 <= i < g.Length0 reads g => RowOf(g, i))
    }

    /** `graph[v, :].any()`: does proposal `v` have a successor? */
    method RowAny(v: nat) returns (any: bool)
      requires graph.Length0 == graph.Length1 && v < graph.Length0
      ensures any == HasSucc(Matrix(), v)
    {
      ghost var m := Matrix();
      any := false;
      var j := 0;
      while j < graph.Length1 && !any
        invariant 0 <= j <= graph.Length1
        invariant any <==> 0 < j && m[v][j - 1]
        invariant forall k :: 0 <= k < j - 1 ==> !m[v][k]
        invariant !any ==> forall k :: 0 <= k < j ==> !m[v][k]
      {
        any := graph[v, j];
        j := j + 1;
      }
    }

    /** `graph[:, j].any()`: does proposal `j` have a predecessor? */
    method ColumnAny(j: nat) returns (any: bool)
      requires graph.Length0 == graph.Length1 && j < graph.Length1
      ensures any == HasPred(Matrix(), j)
    {
      ghost var m := Matrix();
      any := false;
      var i := 0;
      while i < graph.Length0 && !any
        invariant 0 <= i <= graph.Length0
        invariant any ==> 0 < i && m[i - 1][j]
        invariant !any ==> forall k :: 0 <= k < i ==> !m[k][j]
      {
        any := graph[i, j];
        i := i + 1;
      }
    }

    /** `np.where(graph[v, :])[0][0]`: the lowest-indexed successor of `v`. */
    method FirstInRow(v: nat) returns (j: nat)
      requires graph.Length0 == graph.Length1 && v < graph.Length0
      requires HasSucc(Matrix(), v)
      ensures j == Succ(Matrix(), v)
    {
      ghost var m := Matrix();
      j := 0;
      while !graph[v, j]
        invariant j < graph.Length1
        invariant forall k :: 0 <= k < j ==> !m[v][k]
        invariant exists k :: j <= k < graph.Length1 && m[v][k]
        decreases graph.Length1 - j
      {
        j := j + 1;
      }
      SuccIsFirst(m, v, j);
    }

    /** The inner `while` of `sub_graphs_connected`: starting from `head`,
        repeatedly move to the lowest-indexed successor, collecting every node
        visited, until a node with an empty row is reached. */
    method FollowChain(head: nat) returns (chain: seq<nat>)
      requires graph.Length0 == graph.Length1 && head < graph.Length0
      requires ReachesSink(Matrix(), head, graph.Length0)
      ensures chain == Walk(Matrix(), head, graph.Length0)
    {
      ghost var m := Matrix();
      var v: nat := head;
      chain := [v];
      ghost var fuel: nat := graph.Length0;
      var more := RowAny(v);
      while more
        invariant v < graph.Length0
        invariant more == HasSucc(m, v)
        invariant ReachesSink(m, v, fuel)
        invariant chain + Walk(m, v, fuel)[1..] == Walk(m, head, graph.Length0)
        decreases fuel
      {
        WalkExtend(m, head, v, fuel, chain);
        var next := FirstInRow(v);
        chain := chain + [next];
        v, fuel := next, fuel - 1;
        more := RowAny(v);
      }
      WalkExtend(m, head, v, fuel, chain);
    }

    /** `sub_graphs_connected`: for each index in increasing order that has no
        predecessor but a successor, start a chain there and follow it. */
    method SubGraphsConnected() returns (subGraphs: seq<seq<nat>>)
      requires graph.Length0 == graph.Length1
      requires Terminates(Matrix())
      ensures subGraphs == Chains(Matrix())
    {
      ghost var m := Matrix();
      var n := graph.Length0;
      subGraphs := [];
      for index := 0 to n
        invariant subGraphs == ChainsBelow(m, index)
      {
        var hasPred := ColumnAny(index);
        var hasSucc := RowAny(index);
        if !hasPred && hasSucc {
          assert IsHead(m, index);
          var chain := FollowChain(index);
          subGraphs := subGraphs + [chain];
          assert ChainsBelow(m, index + 1) == ChainsBelow(m, index) + [Walk(m, index, n)];
        } else {
          assert !IsHead(m, index);
          assert ChainsBelow(m, index + 1) == ChainsBelow(m, index);
        }
      }
    }
  }

  /** Row `i` of a matrix, as a value. */
  ghost function RowOf(g: array2<bool>, i: nat): (r: seq<bool>)
    requires i < g.Length0
    reads g
    ensures |r| == g.Length1
    ensures forall j :: 0 <= j < g.Length1 ==> r[j] == g[i, j]
  {
    seq(g.Length1, j requires 0 <= j < g.Length1 reads g => g[i, j])
  }

  /** A true entry with only false entries before it is the lowest successor. */
  lemma SuccIsFirst(m: seq<seq<bool>>, v: nat, j: nat)
    requires Square(m) && v < |m| && j < |m| && m[v][j]
    requires forall k :: 0 <= k < j ==> !m[v][k]
    ensures HasSucc(m, v) && Succ(m, v) == j
  {
    assert m[v][j];
    var s := Succ(m, v);
  }
}
