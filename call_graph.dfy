// The call graph the inference works over: its nodes are the declared
// procedures, and p -> q is an edge when a call statement in p's body names q.
// Calls to names that are not declared are not edges.
module CallGraph {
  import opened Ast

  type ProcMap = map<string, Procedure>

  /** Some call statement in one of the blocks names v. */
  ghost predicate Calls(bs: seq<Block>, v: string) {
    exists i, j :: 0 <= i < |bs| && 0 <= j < |bs[i]| && bs[i][j].CallStmt? && bs[i][j].callee == v
  }

  ghost predicate Edge(pm: ProcMap, u: string, v: string) {
    u in pm && v in pm && Calls(pm[u].blocks, v)
  }

  /** The callees the analysis collects are exactly the called names. */
  lemma EdgeIffCallee(pm: ProcMap, u: string, v: string)
    requires u in pm && v in pm
    ensures Edge(pm, u, v) <==> v in BlocksCallees(pm[u].blocks)
  {
    BlocksCalleesSpec(pm[u].blocks, v);
  }

  /** u reaches v by exactly n calls through declared procedures. */
  ghost predicate ReachesIn(pm: ProcMap, u: string, v: string, n: nat)
    decreases n
  {
    if n == 0 then u == v && u in pm
    else exists w :: Edge(pm, u, w) && ReachesIn(pm, w, v, n - 1)
  }

  /** u reaches v by zero or more calls. */
  ghost predicate Reaches(pm: ProcMap, u: string, v: string) {
    exists n :: ReachesIn(pm, u, v, n)
  }

  lemma ReachesRefl(pm: ProcMap, u: string)
    requires u in pm
    ensures Reaches(pm, u, u)
  {
    assert ReachesIn(pm, u, u, 0);
  }

  lemma ReachesEdge(pm: ProcMap, u: string, v: string)
    requires Edge(pm, u, v)
    ensures Reaches(pm, u, v)
  {
    assert ReachesIn(pm, v, v, 0);
    assert ReachesIn(pm, u, v, 1);
  }

  lemma {:induction false} ReachesInTrans(pm: ProcMap, u: string, v: string, w: string, n: nat, m: nat)
    requires ReachesIn(pm, u, v, n) && ReachesIn(pm, v, w, m)
    ensures ReachesIn(pm, u, w, n + m)
    decreases n
  {
    if n > 0 {
      var x :| Edge(pm, u, x) && ReachesIn(pm, x, v, n - 1);
      ReachesInTrans(pm, x, v, w, n - 1, m);
    }
  }

  lemma ReachesTrans(pm: ProcMap, u: string, v: string, w: string)
    requires Reaches(pm, u, v) && Reaches(pm, v, w)
    ensures Reaches(pm, u, w)
  {
    var n: nat :| ReachesIn(pm, u, v, n);
    var m: nat :| ReachesIn(pm, v, w, m);
    ReachesInTrans(pm, u, v, w, n, m);
  }

  lemma ReachesEdgeThen(pm: ProcMap, u: string, v: string, w: string)
    requires Edge(pm, u, v) && Reaches(pm, v, w)
    ensures Reaches(pm, u, w)
  {
    var m: nat :| ReachesIn(pm, v, w, m);
    assert ReachesIn(pm, u, w, m + 1);
  }

  lemma {:induction false} ReachesInDeclared(pm: ProcMap, u: string, v: string, n: nat)
    requires ReachesIn(pm, u, v, n)
    ensures u in pm && v in pm
    decreases n
  {
    if n > 0 {
      var x :| Edge(pm, u, x) && ReachesIn(pm, x, v, n - 1);
      ReachesInDeclared(pm, x, v, n - 1);
    }
  }

  lemma ReachesDeclared(pm: ProcMap, u: string, v: string)
    requires Reaches(pm, u, v)
    ensures u in pm && v in pm
  {
    var n: nat :| ReachesIn(pm, u, v, n);
    ReachesInDeclared(pm, u, v, n);
  }

  /** A ranking that never increases along a call never increases along a
      chain of calls: the induction principle the proofs about reachability
      use. */
  lemma {:induction false} RankNonIncreasingIn(pm: ProcMap, rank: map<string, nat>, u: string, v: string, n: nat)
    requires pm.Keys <= rank.Keys && u in pm && v in pm
    requires forall a, b :: Edge(pm, a, b) ==> rank[b] <= rank[a]
    requires ReachesIn(pm, u, v, n)
    ensures rank[v] <= rank[u]
    decreases n
  {
    if n > 0 {
      var x :| Edge(pm, u, x) && ReachesIn(pm, x, v, n - 1);
      assert x in pm;
      RankNonIncreasingIn(pm, rank, x, v, n - 1);
    }
  }

  lemma RankNonIncreasing(pm: ProcMap, rank: map<string, nat>, u: string, v: string)
    requires pm.Keys <= rank.Keys && u in pm && v in pm
    requires forall a, b :: Edge(pm, a, b) ==> rank[b] <= rank[a]
    requires Reaches(pm, u, v)
    ensures rank[v] <= rank[u]
  {
    var n: nat :| ReachesIn(pm, u, v, n);
    RankNonIncreasingIn(pm, rank, u, v, n);
  }
}
