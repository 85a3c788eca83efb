// The component graph: graph[c] holds the parent components of component c,
// those holding a procedure that calls into c. Each call statement of each
// procedure declaration adds its caller's component as a parent of its
// callee's component, unless the callee has no component (0) or it is the
// caller's own.
module SccGraph {
  import opened Ast
  import opened Tarjan

  /** Every component read from the map, 0 included, is a slot of the graph. */
  predicate NumbersFit(graph: seq<set<nat>>, scc: map<string, nat>) {
    |graph| >= 1 && forall v :: v in scc ==> scc[v] < |graph|
  }

  /** The graph after the call to callee from a procedure in component
      parent. */
  function AddEdge(graph: seq<set<nat>>, scc: map<string, nat>, callee: string, parent: nat): (r: seq<set<nat>>)
    requires NumbersFit(graph, scc)
    ensures |r| == |graph|
    ensures forall c, p :: 0 <= c < |graph| ==>
      (p in r[c] <==> p in graph[c] || (c == Lookup(scc, callee) && p == parent && c != 0 && c != parent))
  {
    var child := Lookup(scc, callee);
    if child != 0 && child != parent then graph[child := graph[child] + {parent}] else graph
  }

  /** The graph after every call of a statement sequence. */
  function StmtsEdges(graph: seq<set<nat>>, scc: map<string, nat>, ss: seq<Stmt>, parent: nat): (r: seq<set<nat>>)
    requires NumbersFit(graph, scc)
    ensures |r| == |graph|
  {
    if ss == [] then graph
    else
      var g := StmtsEdges(graph, scc, ss[..|ss| - 1], parent);
      var last := ss[|ss| - 1];
      if last.CallStmt? then AddEdge(g, scc, last.callee, parent) else g
  }

  /** The graph after every call of a procedure body. */
  function BodyEdges(graph: seq<set<nat>>, scc: map<string, nat>, bs: seq<Block>, parent: nat): (r: seq<set<nat>>)
    requires NumbersFit(graph, scc)
    ensures |r| == |graph|
  {
    if bs == [] then graph
    else StmtsEdges(BodyEdges(graph, scc, bs[..|bs| - 1], parent), scc, bs[|bs| - 1], parent)
  }

  /** The graph after every call of every procedure declaration, each caller
      in the component the map gives it. */
  function DeclsEdges(graph: seq<set<nat>>, scc: map<string, nat>, decls: seq<Decl>): (r: seq<set<nat>>)
    requires NumbersFit(graph, scc)
    ensures |r| == |graph|
  {
    if decls == [] then graph
    else
      var g := DeclsEdges(graph, scc, decls[..|decls| - 1]);
      var d := decls[|decls| - 1];
      if d.ProcDecl? then BodyEdges(g, scc, d.proc.blocks, Lookup(scc, d.proc.name)) else g
  }

  /** The edges a call to q from component parent contributes. */
  ghost predicate CallEdge(scc: map<string, nat>, q: string, parent: nat, c: nat, p: nat) {
    c == Lookup(scc, q) && p == parent && c != 0 && c != parent
  }

  lemma {:induction false} StmtsEdgesSpec(graph: seq<set<nat>>, scc: map<string, nat>, ss: seq<Stmt>, parent: nat, c: nat, p: nat)
    requires NumbersFit(graph, scc) && c < |graph|
    ensures p in StmtsEdges(graph, scc, ss, parent)[c] <==>
      p in graph[c] || exists q :: q in StmtsCallees(ss) && CallEdge(scc, q, parent, c, p)
  {
    if ss != [] {
      var init := ss[..|ss| - 1];
      var last := ss[|ss| - 1];
      StmtsEdgesSpec(graph, scc, init, parent, c, p);
      assert StmtsCallees(ss) == StmtsCallees(init) + if last.CallStmt? then {last.callee} else {};
      if last.CallStmt? && CallEdge(scc, last.callee, parent, c, p) {
        assert last.callee in StmtsCallees(ss);
      }
    }
  }

  lemma {:induction false} BodyEdgesSpec(graph: seq<set<nat>>, scc: map<string, nat>, bs: seq<Block>, parent: nat, c: nat, p: nat)
    requires NumbersFit(graph, scc) && c < |graph|
    ensures p in BodyEdges(graph, scc, bs, parent)[c] <==>
      p in graph[c] || exists q :: q in BlocksCallees(bs) && CallEdge(scc, q, parent, c, p)
  {
    if bs != [] {
      var g := BodyEdges(graph, scc, bs[..|bs| - 1], parent);
      BodyEdgesSpec(graph, scc, bs[..|bs| - 1], parent, c, p);
      StmtsEdgesSpec(g, scc, bs[|bs| - 1], parent, c, p);
    }
  }

  /** p is a parent of c exactly when it already was, or some procedure
      declaration in component p calls a procedure of component c, c being
      neither 0 nor p. */
  lemma {:induction false} DeclsEdgesSpec(graph: seq<set<nat>>, scc: map<string, nat>, decls: seq<Decl>, c: nat, p: nat)
    requires NumbersFit(graph, scc) && c < |graph|
    ensures p in DeclsEdges(graph, scc, decls)[c] <==>
      p in graph[c] ||
      exists i, q :: 0 <= i < |decls| && decls[i].ProcDecl? && q in BlocksCallees(decls[i].proc.blocks)
                     && CallEdge(scc, q, Lookup(scc, decls[i].proc.name), c, p)
  {
    if decls != [] {
      var init := decls[..|decls| - 1];
      assert forall i :: 0 <= i < |init| ==> init[i] == decls[i];
      var g := DeclsEdges(graph, scc, init);
      DeclsEdgesSpec(graph, scc, init, c, p);
      var d := decls[|decls| - 1];
      if d.ProcDecl? {
        BodyEdgesSpec(g, scc, d.proc.blocks, Lookup(scc, d.proc.name), c, p);
      }
    }
  }
}
