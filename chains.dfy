/** What `Graph.sub_graphs_connected` computes, stated on the adjacency matrix
    as a value: `m[i][j]` is true when proposal i precedes proposal j in a
    text line. */
module LineChains {

  /** The matrix is N x N. */
  predicate Square(m: seq<seq<bool>>) {
    forall i :: 0 <= i < |m| ==> |m[i]| == |m|
  }

  /** Row `v` has a true entry: proposal `v` has a successor. */
  predicate HasSucc(m: seq<seq<bool>>, v: nat)
    requires v < |m|
  {
    true in m[v]
  }

  /** Column `j` has a true entry: proposal `j` has a predecessor. */
  predicate HasPred(m: seq<seq<bool>>, j: nat)
    requires Square(m) && j < |m|
  {
    exists i :: 0 <= i < |m| && m[i][j]
  }

  /** A chain starts at `i` when `i` has no predecessor and has a successor. */
  predicate IsHead(m: seq<seq<bool>>, i: nat)
    requires Square(m) && i < |m|
  {
    !HasPred(m, i) && HasSucc(m, i)
  }

  /** The first index of a true entry (`np.where(row)[0][0]`). */
  function FirstTrue(row: seq<bool>): (j: nat)
    requires true in row
    ensures j < |row| && row[j]
    ensures forall k :: 0 <= k < j ==> !row[k]
  {
    if row[0] then 0 else 1 + FirstTrue(row[1..])
  }

  /** The successor a chain moves to from `v`: the lowest-indexed one. */
  function Succ(m: seq<seq<bool>>, v: nat): (j: nat)
    requires Square(m) && v < |m| && HasSucc(m, v)
    ensures j < |m| && m[v][j]
    ensures forall k :: 0 <= k < j ==> !m[v][k]
  {
    FirstTrue(m[v])
  }

  /** Following lowest successors from `v`, a node with no successor is reached
      within `fuel` steps. */
  predicate ReachesSink(m: seq<seq<bool>>, v: nat, fuel: nat)
    requires Square(m) && v < |m|
    decreases fuel
  {
    !HasSucc(m, v) || (fuel > 0 && ReachesSink(m, Succ(m, v), fuel - 1))
  }

  /** The nodes visited from `v` by repeatedly moving to the lowest successor,
      up to and including the first node with no successor. */
  function Walk(m: seq<seq<bool>>, v: nat, fuel: nat): (w: seq<nat>)
    requires Square(m) && v < |m| && ReachesSink(m, v, fuel)
    ensures 1 <= |w| <= fuel + 1 && w[0] == v
    ensures forall k :: 0 <= k < |w| ==> w[k] < |m|
    decreases fuel
  {
    if !HasSucc(m, v) then [v] else [v] + Walk(m, Succ(m, v), fuel - 1)
  }

  /** No index occurs twice. */
  predicate Distinct(s: seq<nat>) {
    forall a, b :: 0 <= a < b < |s| ==> s[a] != s[b]
  }

  /** The inner loop of `sub_graphs_connected` ends for every chain head: no
      cycle is reachable from a head along lowest successors. */
  predicate Terminates(m: seq<seq<bool>>) {
    Square(m) && forall h :: 0 <= h < |m| && IsHead(m, h) ==> ReachesSink(m, h, |m|)
  }

  /** The chains whose heads are below `k`, in increasing head order. */
  function ChainsBelow(m: seq<seq<bool>>, k: nat): (cs: seq<seq<nat>>)
    requires Terminates(m) && k <= |m|
    ensures forall a :: 0 <= a < |cs| ==> |cs[a]| >= 2 && cs[a][0] < k
  {
    if k == 0 then []
    else ChainsBelow(m, k - 1) + (if IsHead(m, k - 1) then [Walk(m, k - 1, |m|)] else [])
  }

  /** The result of `sub_graphs_connected`. */
  function Chains(m: seq<seq<bool>>): (cs: seq<seq<nat>>)
    requires Terminates(m)
    ensures forall a :: 0 <= a < |cs| ==> |cs[a]| >= 2 && cs[a][0] < |m|
  {
    ChainsBelow(m, |m|)
  }

  // ---------------------------------------------------------------------------
  // Walks

  /** A walk is a path of lowest-successor steps that ends at a node with no
      successor, and it is never longer than its fuel allows. */
  lemma {:induction false} WalkIsPath(m: seq<seq<bool>>, v: nat, fuel: nat)
    requires Square(m) && v < |m| && ReachesSink(m, v, fuel)
    ensures var w := Walk(m, v, fuel);
      && (forall k :: 0 <= k < |w| - 1 ==> HasSucc(m, w[k]) && w[k + 1] == Succ(m, w[k]))
      && !HasSucc(m, w[|w| - 1])
    decreases fuel
  {
    if HasSucc(m, v) {
      var s := Succ(m, v);
      WalkIsPath(m, s, fuel - 1);
      var w, rest := Walk(m, v, fuel), Walk(m, s, fuel - 1);
      assert w == [v] + rest;
      forall k | 0 <= k < |w| - 1 ensures HasSucc(m, w[k]) && w[k + 1] == Succ(m, w[k]) {
        if k > 0 {
          assert w[k] == rest[k - 1] && w[k + 1] == rest[k];
        }
      }
    }
  }

  /** One step of a walk: from a node with a successor, the walk moves to the
      lowest successor and goes on from there with one unit of fuel less. */
  lemma WalkStep(m: seq<seq<bool>>, v: nat, fuel: nat)
    requires Square(m) && v < |m| && ReachesSink(m, v, fuel) && HasSucc(m, v)
    ensures fuel > 0 && ReachesSink(m, Succ(m, v), fuel - 1)
    ensures Walk(m, v, fuel)[1..] == Walk(m, Succ(m, v), fuel - 1)
  {
  }

  /** A walk collected so far, `done`, that ends at `v` extends by one step
      to the lowest successor of `v`, and is complete when `v` has none. */
  lemma WalkExtend(m: seq<seq<bool>>, head: nat, v: nat, fuel: nat, done: seq<nat>)
    requires Square(m) && head < |m| && v < |m| && ReachesSink(m, v, fuel) && ReachesSink(m, head, |m|)
    requires done + Walk(m, v, fuel)[1..] == Walk(m, head, |m|)
    ensures HasSucc(m, v) ==>
      && fuel > 0 && ReachesSink(m, Succ(m, v), fuel - 1)
      && (done + [Succ(m, v)]) + Walk(m, Succ(m, v), fuel - 1)[1..] == Walk(m, head, |m|)
    ensures !HasSucc(m, v) ==> done == Walk(m, head, |m|)
  {
    if HasSucc(m, v) {
      var s := Succ(m, v);
      WalkStep(m, v, fuel);
      var tail := Walk(m, s, fuel - 1);
      assert [s] + tail[1..] == tail;
      assert (done + [s]) + tail[1..] == done + ([s] + tail[1..]);
    } else {
      assert Walk(m, v, fuel)[1..] == [];
      assert done + [] == done;
    }
  }

  /** More fuel never hurts. */
  lemma {:induction false} ReachesSinkMonotone(m: seq<seq<bool>>, v: nat, fuel: nat, more: nat)
    requires Square(m) && v < |m| && ReachesSink(m, v, fuel) && fuel <= more
    ensures ReachesSink(m, v, more)
    decreases fuel
  {
    if HasSucc(m, v) {
      ReachesSinkMonotone(m, Succ(m, v), fuel - 1, more - 1);
    }
  }

  /** The walk does not depend on how much fuel it was given. */
  lemma {:induction false} WalkFuelIndependent(m: seq<seq<bool>>, v: nat, f: nat, g: nat)
    requires Square(m) && v < |m| && ReachesSink(m, v, f) && ReachesSink(m, v, g)
    ensures Walk(m, v, f) == Walk(m, v, g)
    decreases f
  {
    if HasSucc(m, v) {
      WalkFuelIndependent(m, Succ(m, v), f - 1, g - 1);
    }
  }

  /** Every suffix of a walk is the walk from its first node. */
  lemma {:induction false} WalkSuffix(m: seq<seq<bool>>, v: nat, fuel: nat, k: nat)
    requires Square(m) && v < |m| && ReachesSink(m, v, fuel)
    requires k < |Walk(m, v, fuel)|
    ensures k <= fuel
    ensures ReachesSink(m, Walk(m, v, fuel)[k], fuel - k)
    ensures Walk(m, Walk(m, v, fuel)[k], fuel - k) == Walk(m, v, fuel)[k..]
    decreases k
  {
    var w := Walk(m, v, fuel);
    if k > 0 {
      var s := Succ(m, v);
      var rest := Walk(m, s, fuel - 1);
      assert w == [v] + rest;
      WalkSuffix(m, s, fuel - 1, k - 1);
      assert w[k] == rest[k - 1];
      assert w[k..] == rest[k - 1..];
    }
  }

  /** No node occurs twice on a walk: a repeated node would make the walk
      cycle forever instead of reaching a node with no successor. */
  lemma WalkDistinct(m: seq<seq<bool>>, v: nat, fuel: nat)
    requires Square(m) && v < |m| && ReachesSink(m, v, fuel)
    ensures Distinct(Walk(m, v, fuel))
  {
    var w := Walk(m, v, fuel);
    forall a, b | 0 <= a < b < |w| ensures w[a] != w[b] {
      WalkSuffix(m, v, fuel, a);
      WalkSuffix(m, v, fuel, b);
      if w[a] == w[b] {
        WalkFuelIndependent(m, w[a], fuel - a, fuel - b);
        assert false;
      }
    }
  }

  /** Pigeonhole: a sequence of distinct indices below `n` has at most `n`
      entries. If `n - 1` occurs, dropping it leaves distinct indices below
      `n - 1`. */
  lemma {:induction false} DistinctIndicesBound(s: seq<nat>, n: nat)
    requires forall k :: 0 <= k < |s| ==> s[k] < n
    requires Distinct(s)
    ensures |s| <= n
    decreases n
  {
    if |s| == 0 {
    } else if p :| 0 <= p < |s| && s[p] == n - 1 {
      var t := s[..p] + s[p + 1..];
      assert forall k :: 0 <= k < |t| ==> t[k] == if k < p then s[k] else s[k + 1];
      DistinctIndicesBound(t, n - 1);
    } else {
      assert s[0] < n;
      DistinctIndicesBound(s, n - 1);
    }
  }

  /** A walk's length is its fuel-free length: it is reached with exactly
      that many steps. */
  lemma {:induction false} ReachesSinkWithinLength(m: seq<seq<bool>>, v: nat, fuel: nat)
    requires Square(m) && v < |m| && ReachesSink(m, v, fuel)
    ensures ReachesSink(m, v, |Walk(m, v, fuel)| - 1)
    decreases fuel
  {
    if HasSucc(m, v) {
      ReachesSinkWithinLength(m, Succ(m, v), fuel - 1);
    }
  }

  /** If lowest successors from `v` reach a node with no successor at all, they
      do so within N steps; so `Terminates` asks exactly that the inner loop
      ends, whatever bound one might have given instead. */
  lemma FuelSuffices(m: seq<seq<bool>>, v: nat, fuel: nat)
    requires Square(m) && v < |m| && ReachesSink(m, v, fuel)
    ensures ReachesSink(m, v, |m|)
    ensures Walk(m, v, |m|) == Walk(m, v, fuel)
  {
    var w := Walk(m, v, fuel);
    WalkDistinct(m, v, fuel);
    DistinctIndicesBound(w, |m|);
    ReachesSinkWithinLength(m, v, fuel);
    ReachesSinkMonotone(m, v, |w| - 1, |m|);
    WalkFuelIndependent(m, v, fuel, |m|);
  }

  // ---------------------------------------------------------------------------
  // Chains

  /** `c` is the walk from a chain head. */
  predicate WalkFromHead(m: seq<seq<bool>>, c: seq<nat>)
    requires Terminates(m)
  {
    |c| > 0 && c[0] < |m| && IsHead(m, c[0]) && c == Walk(m, c[0], |m|)
  }

  /** Every chain with head below `k` is the walk from a head below `k`. */
  lemma {:induction false} ChainsBelowAreWalks(m: seq<seq<bool>>, k: nat)
    requires Terminates(m) && k <= |m|
    ensures forall a :: 0 <= a < |ChainsBelow(m, k)| ==> WalkFromHead(m, ChainsBelow(m, k)[a])
  {
    if k > 0 {
      ChainsBelowAreWalks(m, k - 1);
      var prev, cs := ChainsBelow(m, k - 1), ChainsBelow(m, k);
      if IsHead(m, k - 1) {
        var w := Walk(m, k - 1, |m|);
        assert cs == prev + [w];
        forall a | 0 <= a < |cs| ensures WalkFromHead(m, cs[a]) {
          if a < |prev| {
            assert cs[a] == prev[a];
          } else {
            assert cs[a] == w && w[0] == k - 1;
          }
        }
      } else {
        assert cs == prev;
      }
    }
  }

  /** The heads of the chains below `k` increase strictly. */
  lemma {:induction false} ChainsBelowIncreasing(m: seq<seq<bool>>, k: nat)
    requires Terminates(m) && k <= |m|
    ensures forall a, b :: 0 <= a < b < |ChainsBelow(m, k)| ==> ChainsBelow(m, k)[a][0] < ChainsBelow(m, k)[b][0]
  {
    if k > 0 {
      ChainsBelowIncreasing(m, k - 1);
      var prev, cs := ChainsBelow(m, k - 1), ChainsBelow(m, k);
      if IsHead(m, k - 1) {
        var w := Walk(m, k - 1, |m|);
        assert cs == prev + [w];
        forall a, b | 0 <= a < b < |cs| ensures cs[a][0] < cs[b][0] {
          if b < |prev| {
            assert cs[a] == prev[a] && cs[b] == prev[b];
          } else {
            assert cs[b] == w && cs[a] == prev[a];
          }
        }
      } else {
        assert cs == prev;
      }
    }
  }

  /** Every head below `k` starts one of the chains below `k`. */
  lemma {:induction false} ChainsBelowComplete(m: seq<seq<bool>>, k: nat, h: nat)
    requires Terminates(m) && h < k <= |m| && IsHead(m, h)
    ensures exists a :: 0 <= a < |ChainsBelow(m, k)| && ChainsBelow(m, k)[a][0] == h
  {
    var prev, cs := ChainsBelow(m, k - 1), ChainsBelow(m, k);
    if h < k - 1 {
      ChainsBelowComplete(m, k - 1, h);
      var a :| 0 <= a < |prev| && prev[a][0] == h;
      if IsHead(m, k - 1) {
        assert cs == prev + [Walk(m, k - 1, |m|)];
      } else {
        assert cs == prev;
      }
      assert cs[a] == prev[a];
    } else {
      assert cs == prev + [Walk(m, h, |m|)];
      assert cs[|prev|][0] == h;
    }
  }

  /** Index `i` starts a chain of the result exactly when column `i` is all
      false and row `i` is not: isolated nodes and nodes with a predecessor
      never start one. */
  lemma ChainHeadIff(m: seq<seq<bool>>, i: nat)
    requires Terminates(m) && i < |m|
    ensures IsHead(m, i) <==> exists a :: 0 <= a < |Chains(m)| && Chains(m)[a][0] == i
  {
    assert Chains(m) == ChainsBelow(m, |m|);
    ChainsBelowAreWalks(m, |m|);
    if IsHead(m, i) {
      ChainsBelowComplete(m, |m|, i);
    }
  }

  /** Chains come out in strictly increasing order of their heads. */
  lemma ChainsOrdered(m: seq<seq<bool>>)
    requires Terminates(m)
    ensures forall a, b :: 0 <= a < b < |Chains(m)| ==> Chains(m)[a][0] < Chains(m)[b][0]
  {
    assert Chains(m) == ChainsBelow(m, |m|);
    ChainsBelowIncreasing(m, |m|);
  }

  /** Shape of one chain: it starts at a head, has at least two nodes, holds
      only indices below N with no repetition (so at most N of them), every
      step is an edge to the lowest-indexed successor, and it stops at the
      first node with an empty row. */
  lemma ChainStructure(m: seq<seq<bool>>, a: nat)
    requires Terminates(m) && a < |Chains(m)|
    ensures var c := Chains(m)[a];
      && 2 <= |c| <= |m|
      && IsHead(m, c[0])
      && (forall k :: 0 <= k < |c| ==> c[k] < |m|)
      && Distinct(c)
      && (forall k :: 0 <= k < |c| - 1 ==>
            m[c[k]][c[k + 1]] && forall j :: 0 <= j < c[k + 1] ==> !m[c[k]][j])
      && (forall k :: 0 <= k < |c| - 1 ==> HasSucc(m, c[k]))
      && !HasSucc(m, c[|c| - 1])
  {
    assert Chains(m) == ChainsBelow(m, |m|);
    ChainsBelowAreWalks(m, |m|);
    var c := Chains(m)[a];
    var h := c[0];
    assert WalkFromHead(m, c);
    WalkIsPath(m, h, |m|);
    WalkDistinct(m, h, |m|);
    DistinctIndicesBound(c, |m|);
  }

  /** Every node on a chain has an edge: the head has a successor and every
      later node a predecessor. So an isolated node is on no chain. */
  lemma IsolatedNodeInNoChain(m: seq<seq<bool>>, i: nat)
    requires Terminates(m) && i < |m| && !HasPred(m, i) && !HasSucc(m, i)
    ensures forall a, k :: 0 <= a < |Chains(m)| && 0 <= k < |Chains(m)[a]| ==> Chains(m)[a][k] != i
  {
    forall a, k | 0 <= a < |Chains(m)| && 0 <= k < |Chains(m)[a]| ensures Chains(m)[a][k] != i {
      ChainStructure(m, a);
      var c := Chains(m)[a];
      if k > 0 {
        assert m[c[k - 1]][c[k]];
        assert HasPred(m, c[k]);
      }
    }
  }

  // ---------------------------------------------------------------------------
  // Worked matrices

  /** 0 -> 1, 1 -> 2 */
  function Line3(): seq<seq<bool>> {
    [[false, true, false], [false, false, true], [false, false, false]]
  }

  /** 0 -> 1, 2 -> 3 */
  function TwoPairs(): seq<seq<bool>> {
    [[false, true, false, false], [false, false, false, false],
     [false, false, false, true], [false, false, false, false]]
  }

  /** 0 -> 1, 1 -> 0 */
  function BackEdge(): seq<seq<bool>> {
    [[false, true], [true, false]]
  }

  /** 0 -> 2, 1 -> 2 */
  function Merge(): seq<seq<bool>> {
    [[false, false, true], [false, false, true], [false, false, false]]
  }

  /** 0 -> 1, 1 -> 2, 2 -> 1 */
  function HeadIntoCycle(): seq<seq<bool>> {
    [[false, true, false], [false, false, true], [false, true, false]]
  }

  /** 0 -> 1, 0 -> 2, 2 -> 3, 3 -> 2 */
  function CycleOffWalk(): seq<seq<bool>> {
    [[false, true, true, false], [false, false, false, false],
     [false, false, false, true], [false, false, true, false]]
  }

  /** One line 0 -> 1 -> 2 gives the single chain [0, 1, 2]. */
  lemma Line3Chains()
    ensures Terminates(Line3()) && Chains(Line3()) == [[0, 1, 2]]
  {
    var m := Line3();
    assert m[0][1] && m[1][2];
    assert !HasPred(m, 0);
    assert IsHead(m, 0) && !IsHead(m, 1) && !IsHead(m, 2);
    assert Succ(m, 0) == 1 && Succ(m, 1) == 2 && !HasSucc(m, 2);
    assert ReachesSink(m, 0, 3);
    assert Walk(m, 0, 3) == [0, 1, 2];
    assert ChainsBelow(m, 3) == [[0, 1, 2]];
  }

  /** The edges of `TwoPairs`, entry by entry. */
  lemma TwoPairsSteps()
    ensures Square(TwoPairs())
    ensures IsHead(TwoPairs(), 0) && !IsHead(TwoPairs(), 1) && IsHead(TwoPairs(), 2) && !IsHead(TwoPairs(), 3)
    ensures Succ(TwoPairs(), 0) == 1 && Succ(TwoPairs(), 2) == 3
    ensures !HasSucc(TwoPairs(), 1) && !HasSucc(TwoPairs(), 3)
  {
    var m := TwoPairs();
    assert m[0][1] && m[2][3];
    assert !HasPred(m, 0) && !HasPred(m, 2);
  }

  /** Two disjoint pairs give two chains, in head order. */
  lemma TwoPairsChains()
    ensures Terminates(TwoPairs()) && Chains(TwoPairs()) == [[0, 1], [2, 3]]
  {
    var m := TwoPairs();
    TwoPairsSteps();
    assert Walk(m, 0, 4) == [0, 1];
    assert Walk(m, 2, 4) == [2, 3];
    forall h | 0 <= h < |m| && IsHead(m, h) ensures ReachesSink(m, h, |m|) {
      assert h == 0 || h == 2;
    }
    assert ChainsBelow(m, 2) == [[0, 1]];
    assert ChainsBelow(m, 4) == [[0, 1], [2, 3]];
  }

  /** Two heads that share a successor both reach it: a node can lie on more
      than one chain. */
  lemma MergeChains()
    ensures Terminates(Merge()) && Chains(Merge()) == [[0, 2], [1, 2]]
  {
    var m := Merge();
    assert m[0][2] && m[1][2];
    assert !HasPred(m, 0) && !HasPred(m, 1);
    assert IsHead(m, 0) && IsHead(m, 1) && !IsHead(m, 2);
    assert Succ(m, 0) == 2 && Succ(m, 1) == 2 && !HasSucc(m, 2);
    assert Walk(m, 0, 3) == [0, 2];
    assert Walk(m, 1, 3) == [1, 2];
    assert ChainsBelow(m, 3) == [[0, 2], [1, 2]];
  }

  /** With the back edge 0 -> 1, 1 -> 0 every node has a predecessor, so there
      is no head and the result is empty, although following successors from
      either node would never end. */
  lemma BackEdgeChains()
    ensures Terminates(BackEdge()) && Chains(BackEdge()) == []
    ensures forall fuel: nat :: !ReachesSink(BackEdge(), 0, fuel)
  {
    var m := BackEdge();
    assert m[1][0] && m[0][1];
    assert !IsHead(m, 0) && !IsHead(m, 1);
    forall h | 0 <= h < |m| ensures !IsHead(m, h) {
      assert h == 0 || h == 1;
    }
    assert ChainsBelow(m, 1) == [];
    assert ChainsBelow(m, 2) == [];
    forall fuel: nat ensures !ReachesSink(m, 0, fuel) {
      BackEdgeSpins(fuel);
    }
  }

  lemma {:induction false} BackEdgeSpins(fuel: nat)
    ensures !ReachesSink(BackEdge(), 0, fuel) && !ReachesSink(BackEdge(), 1, fuel)
  {
    var m := BackEdge();
    assert m[0][1] && m[1][0] && Succ(m, 0) == 1 && Succ(m, 1) == 0;
    if fuel > 0 {
      BackEdgeSpins(fuel - 1);
    }
  }

  /** A cycle on the lowest-successor walk from a head (0 -> 1 -> 2 -> 1)
      makes the inner loop run forever: this matrix falls outside `Terminates`. */
  lemma HeadIntoCycleDiverges()
    ensures Square(HeadIntoCycle()) && IsHead(HeadIntoCycle(), 0)
    ensures !Terminates(HeadIntoCycle())
  {
    var m := HeadIntoCycle();
    assert m[0][1];
    assert !HasPred(m, 0);
    assert IsHead(m, 0);
    CycleSpins(3);
  }

  lemma {:induction false} CycleSpins(fuel: nat)
    ensures !ReachesSink(HeadIntoCycle(), 0, fuel)
    ensures !ReachesSink(HeadIntoCycle(), 1, fuel) && !ReachesSink(HeadIntoCycle(), 2, fuel)
  {
    var m := HeadIntoCycle();
    assert m[0][1] && m[1][2] && m[2][1];
    assert Succ(m, 0) == 1 && Succ(m, 1) == 2 && Succ(m, 2) == 1;
    if fuel > 0 {
      CycleSpins(fuel - 1);
    }
  }

  /** A cycle that is reachable from a head but lies off its lowest-successor
      walk does not stop the loop: from 0 the walk goes to 1 and ends there,
      while 2 -> 3 -> 2 is never entered. */
  lemma CycleOffWalkChains()
    ensures Terminates(CycleOffWalk()) && Chains(CycleOffWalk()) == [[0, 1]]
  {
    var m := CycleOffWalk();
    assert m[0][1] && m[0][2] && m[2][3] && m[3][2];
    assert !HasPred(m, 0);
    assert IsHead(m, 0) && !IsHead(m, 1) && !IsHead(m, 2) && !IsHead(m, 3);
    assert Succ(m, 0) == 1 && !HasSucc(m, 1);
    assert Walk(m, 0, 4) == [0, 1];
    forall h | 0 <= h < |m| && IsHead(m, h) ensures ReachesSink(m, h, |m|) {
      assert h == 0 || h == 1 || h == 2 || h == 3;
    }
    assert ChainsBelow(m, 1) == [[0, 1]];
    assert ChainsBelow(m, 4) == [[0, 1]];
  }
}
