// What the inference computes, in terms of the call graph: once the search is
// done, the component graph holds exactly the calls between components, its
// parents are numbered after their children, and propagating the direct
// effects up the graph leaves in the set of a procedure's component exactly
// the effects of every procedure it reaches through calls, itself included.
module Inference {
  import opened Ast
  import opened CallGraph
  import opened Tarjan
  import opened Direct
  import opened SccGraph
  import opened Propagation

  /** G is the component graph of pm under the component map scc: p is a
      parent of c exactly when a procedure of component p calls a procedure
      of the different component c. */
  ghost predicate IsComponentGraph(graph: seq<set<nat>>, pm: ProcMap, scc: map<string, nat>) {
    ParentsCall(graph, pm, scc) && CallsAreEdges(graph, pm, scc)
  }

  /** Every parent of c holds a procedure calling into c. */
  ghost predicate ParentsCall(graph: seq<set<nat>>, pm: ProcMap, scc: map<string, nat>) {
    forall c, p :: 0 <= c < |graph| && p in graph[c] ==>
      exists u, q :: Edge(pm, u, q) && Lookup(scc, q) == c && Lookup(scc, u) == p && c != p
  }

  /** Every call between two different components within the graph is an
      edge of it. */
  ghost predicate CallsAreEdges(graph: seq<set<nat>>, pm: ProcMap, scc: map<string, nat>) {
    forall u, q :: Edge(pm, u, q) && Lookup(scc, q) < |graph| && Lookup(scc, q) != Lookup(scc, u) ==>
      Lookup(scc, u) in graph[Lookup(scc, q)]
  }

  /** After the search every declared procedure, and nothing else, has a
      component, numbered from 1 below the number of slots. */
  lemma DoneNumbers(pm: ProcMap, s: State)
    requires Done(pm, s)
    ensures forall u :: u in pm <==> u in s.scc
    ensures forall u :: u in s.scc ==> 1 <= s.scc[u] < s.numSccs
  {
  }

  /** scc divides the declared procedures into components 1 .. n - 1 whose
      members reach each other, a callee's component never numbered after
      its caller's. */
  ghost predicate Components(pm: ProcMap, scc: map<string, nat>, n: nat) {
    && (forall u :: u in pm <==> u in scc)
    && (forall u :: u in scc ==> 1 <= scc[u] < n)
    && SccsConnected(pm, scc)
    && (forall u, q :: Edge(pm, u, q) ==> Lookup(scc, q) <= Lookup(scc, u))
  }

  /** A finished search leaves such a division. */
  lemma DoneComponents(pm: ProcMap, s: State)
    requires Done(pm, s)
    ensures Components(pm, s.scc, s.numSccs)
  {
    DoneNumbers(pm, s);
    forall u, q | Edge(pm, u, q)
      ensures Lookup(s.scc, q) <= Lookup(s.scc, u)
    {
      DoneCallOrder(pm, s, u, q);
    }
  }

  /** The direct effects the inference adds per component, for the
      components the search found. */
  lemma DirectOfSearch(decls: seq<Decl>, pm: ProcMap, s: State, mods0: seq<set<string>>, e: nat, v: string)
    requires DistinctProcNames(decls) && pm == ProcMapOf(decls) && Done(pm, s)
    requires AllEmpty(mods0) && |mods0| == s.numSccs && e < |mods0|
    ensures SlotsFit(mods0, s.scc, decls)
    ensures v in DirectMods(mods0, s.scc, decls)[e] <==>
      exists w :: w in pm && Lookup(s.scc, w) == e && v in BodyEffects(pm[w].blocks)
  {
    DoneNumbers(pm, s);
    ProcMapOfDecls(decls);
    DirectModsSpec(mods0, s.scc, decls, e, v);
    if v in DirectMods(mods0, s.scc, decls)[e] {
      var i :| 0 <= i < |decls| && decls[i].ProcDecl? && Lookup(s.scc, decls[i].proc.name) == e
               && v in BodyEffects(decls[i].proc.blocks);
      assert pm[decls[i].proc.name] == decls[i].proc;
    }
    if exists w :: w in pm && Lookup(s.scc, w) == e && v in BodyEffects(pm[w].blocks) {
      var w :| w in pm && Lookup(s.scc, w) == e && v in BodyEffects(pm[w].blocks);
      var i :| 0 <= i < |decls| && decls[i].ProcDecl? && decls[i].proc.name == w;
      assert pm[w] == decls[i].proc;
    }
  }

  /** The graph the inference builds after the search is the component
      graph. */
  lemma EdgesOfSearch(decls: seq<Decl>, pm: ProcMap, s: State, graph0: seq<set<nat>>)
    requires DistinctProcNames(decls) && pm == ProcMapOf(decls) && Done(pm, s)
    requires AllEmpty(graph0) && |graph0| == s.numSccs
    ensures NumbersFit(graph0, s.scc)
    ensures IsComponentGraph(DeclsEdges(graph0, s.scc, decls), pm, s.scc)
  {
    DoneNumbers(pm, s);
    ProcMapOfDecls(decls);
    var g := DeclsEdges(graph0, s.scc, decls);
    forall c, p | 0 <= c < |g| && p in g[c]
      ensures exists u, q :: Edge(pm, u, q) && Lookup(s.scc, q) == c && Lookup(s.scc, u) == p && c != p
    {
      DeclsEdgesSpec(graph0, s.scc, decls, c, p);
      var i, q :| 0 <= i < |decls| && decls[i].ProcDecl? && q in BlocksCallees(decls[i].proc.blocks)
                  && CallEdge(s.scc, q, Lookup(s.scc, decls[i].proc.name), c, p);
      var u := decls[i].proc.name;
      assert pm[u] == decls[i].proc;
      EdgeIffCallee(pm, u, q);
    }
    forall u, q | Edge(pm, u, q) && Lookup(s.scc, q) < |g| && Lookup(s.scc, q) != Lookup(s.scc, u)
      ensures Lookup(s.scc, u) in g[Lookup(s.scc, q)]
    {
      var c := Lookup(s.scc, q);
      var p := Lookup(s.scc, u);
      DeclsEdgesSpec(graph0, s.scc, decls, c, p);
      var i :| 0 <= i < |decls| && decls[i].ProcDecl? && decls[i].proc.name == u;
      assert pm[u] == decls[i].proc;
      EdgeIffCallee(pm, u, q);
      assert CallEdge(s.scc, q, Lookup(s.scc, decls[i].proc.name), c, p);
    }
  }

  /** In the component graph of a finished search every parent is numbered
      after its children and the reserved slot has no parents, so the single
      ascending pass of the propagation applies. */
  lemma ComponentGraphAscends(pm: ProcMap, scc: map<string, nat>, mods: seq<set<string>>, graph: seq<set<nat>>)
    requires Components(pm, scc, |graph|) && ParentsCall(graph, pm, scc)
    requires |mods| == |graph|
    ensures GraphFits(mods, graph) && Ascending(graph)
  {
    forall c, p | 0 <= c < |graph| && p in graph[c]
      ensures 1 <= c < p < |mods|
    {
      var u, q :| Edge(pm, u, q) && Lookup(scc, q) == c && Lookup(scc, u) == p && c != p;
    }
    if |graph| > 0 {
      assert forall p :: p !in graph[0];
    }
  }

  /** A path up the component graph from e to c means every procedure of c
      reaches every procedure of e. */
  lemma {:induction false} PathReaches(pm: ProcMap, scc: map<string, nat>, graph: seq<set<nat>>, e: nat, c: nat, k: nat,
                                      u: string, w: string)
    requires (forall v :: v in pm ==> v in scc) && SccsConnected(pm, scc) && ParentsCall(graph, pm, scc)
    requires PathIn(graph, e, c, k)
    requires u in pm && w in pm && Lookup(scc, u) == c && Lookup(scc, w) == e
    ensures Reaches(pm, u, w)
    decreases k
  {
    if k == 0 {
      assert Reaches(pm, u, w);
    } else {
      var k': nat := k - 1;
      var d: nat :| d < |graph| && c in graph[d] && PathIn(graph, e, d, k');
      var u', q :| Edge(pm, u', q) && Lookup(scc, q) == d && Lookup(scc, u') == c && d != c;
      PathReaches(pm, scc, graph, e, d, k', q, w);
      assert Reaches(pm, u, u');
      ReachesEdgeThen(pm, u', q, w);
      ReachesTrans(pm, u, u', w);
    }
  }

  /** A chain of n calls from u to w gives a path up the component graph from
      w's component to u's. */
  lemma {:induction false} ReachesPath(pm: ProcMap, scc: map<string, nat>, graph: seq<set<nat>>, u: string, w: string, n: nat)
    requires Components(pm, scc, |graph|) && CallsAreEdges(graph, pm, scc)
    requires ReachesIn(pm, u, w, n)
    ensures u in scc && w in scc
    ensures exists k :: PathIn(graph, scc[w], scc[u], k)
    decreases n
  {
    ReachesInDeclared(pm, u, w, n);
    if n == 0 {
      assert PathIn(graph, scc[w], scc[u], 0);
    } else {
      var x :| Edge(pm, u, x) && ReachesIn(pm, x, w, n - 1);
      ReachesPath(pm, scc, graph, x, w, n - 1);
      var k: nat :| PathIn(graph, scc[w], scc[x], k);
      if scc[x] != scc[u] {
        var d: nat := scc[x];
        assert d < |graph| && scc[u] in graph[d];
        assert PathIn(graph, scc[w], scc[u], k + 1);
      }
    }
  }

  /** After the search, the direct effects propagated up the component graph
      give each procedure's component exactly the effects of every procedure
      it reaches, itself included. */
  lemma PropagatedIsReachable(decls: seq<Decl>, pm: ProcMap, s: State, mods0: seq<set<string>>,
                              graph0: seq<set<nat>>, u: string, v: string)
    requires DistinctProcNames(decls) && pm == ProcMapOf(decls) && Done(pm, s)
    requires AllEmpty(mods0) && AllEmpty(graph0) && |mods0| == |graph0| == s.numSccs
    requires SlotsFit(mods0, s.scc, decls) && NumbersFit(graph0, s.scc)
    requires u in pm
    ensures u in s.scc && s.scc[u] < |mods0|
    ensures v in Pass(DirectMods(mods0, s.scc, decls), DeclsEdges(graph0, s.scc, decls), |mods0|)[s.scc[u]] <==>
      exists w :: w in pm && Reaches(pm, u, w) && v in BodyEffects(pm[w].blocks)
  {
    DoneNumbers(pm, s);
    var m := DirectMods(mods0, s.scc, decls);
    var g := DeclsEdges(graph0, s.scc, decls);
    var c := s.scc[u];
    EdgesOfSearch(decls, pm, s, graph0);
    DoneComponents(pm, s);
    ComponentGraphAscends(pm, s.scc, m, g);
    assert ParentsCall(g, pm, s.scc) && CallsAreEdges(g, pm, s.scc);
    PassComputesFlow(m, g, c, v);
    if Flows(m, g, c, v) {
      var e: nat, k: nat :| e < |m| && PathIn(g, e, c, k) && v in m[e];
      DirectOfSearch(decls, pm, s, mods0, e, v);
      var w :| w in pm && Lookup(s.scc, w) == e && v in BodyEffects(pm[w].blocks);
      PathReaches(pm, s.scc, g, e, c, k, u, w);
    }
    if exists w :: w in pm && Reaches(pm, u, w) && v in BodyEffects(pm[w].blocks) {
      var w :| w in pm && Reaches(pm, u, w) && v in BodyEffects(pm[w].blocks);
      var n :| ReachesIn(pm, u, w, n);
      ReachesPath(pm, s.scc, g, u, w, n);
      var k: nat :| PathIn(g, s.scc[w], c, k);
      DirectOfSearch(decls, pm, s, mods0, s.scc[w], v);
      assert Flows(m, g, c, v);
    }
  }

  /** Every slot the passes after the search use fits, and every procedure
      has a component. */
  ghost predicate SearchFits(decls: seq<Decl>, pm: ProcMap, s: State, mods0: seq<set<string>>, graph0: seq<set<nat>>) {
    && SlotsFit(mods0, s.scc, decls) && NumbersFit(graph0, s.scc)
    && GraphFits(DirectMods(mods0, s.scc, decls), DeclsEdges(graph0, s.scc, decls))
    && (forall u :: u in pm ==> u in s.scc && s.scc[u] < |mods0|)
  }

  /** After the search every slot the later passes use fits. */
  lemma FitsAfterSearch(decls: seq<Decl>, pm: ProcMap, s: State, mods0: seq<set<string>>, graph0: seq<set<nat>>)
    requires DistinctProcNames(decls) && pm == ProcMapOf(decls) && Done(pm, s)
    requires AllEmpty(mods0) && AllEmpty(graph0) && |mods0| == |graph0| == s.numSccs
    ensures SearchFits(decls, pm, s, mods0, graph0)
  {
    DoneNumbers(pm, s);
    DirectOfSearch(decls, pm, s, mods0, 0, "");
    EdgesOfSearch(decls, pm, s, graph0);
    DoneComponents(pm, s);
    ComponentGraphAscends(pm, s.scc, DirectMods(mods0, s.scc, decls), DeclsEdges(graph0, s.scc, decls));
  }

  /** Everything the passes after the search need, and what they give:
      every slot fits, and propagating the direct effects up the component
      graph gives each procedure's component what its reachable procedures
      touch. */
  lemma AfterSearch(decls: seq<Decl>, pm: ProcMap, s: State, mods0: seq<set<string>>, graph0: seq<set<nat>>)
    requires DistinctProcNames(decls) && pm == ProcMapOf(decls) && Done(pm, s)
    requires AllEmpty(mods0) && AllEmpty(graph0) && |mods0| == |graph0| == s.numSccs
    ensures SearchFits(decls, pm, s, mods0, graph0)
    ensures forall u, v :: u in pm ==>
      (v in Pass(DirectMods(mods0, s.scc, decls), DeclsEdges(graph0, s.scc, decls), |mods0|)[s.scc[u]] <==>
         exists w :: w in pm && Reaches(pm, u, w) && v in BodyEffects(pm[w].blocks))
  {
    FitsAfterSearch(decls, pm, s, mods0, graph0);
    forall u, v | u in pm
      ensures v in Pass(DirectMods(mods0, s.scc, decls), DeclsEdges(graph0, s.scc, decls), |mods0|)[s.scc[u]] <==>
        exists w :: w in pm && Reaches(pm, u, w) && v in BodyEffects(pm[w].blocks)
    {
      PropagatedIsReachable(decls, pm, s, mods0, graph0, u, v);
    }
  }

  /** Adding the same globals to every component keeps what propagation
      gave and adds exactly those globals. */
  lemma WithGlobals(pm: ProcMap, scc: map<string, nat>, reach: seq<set<string>>,
                    mods: seq<set<string>>, globals: set<string>)
    requires forall u :: u in pm ==> u in scc && scc[u] < |reach|
    requires forall u, v :: u in pm ==>
      (v in reach[scc[u]] <==> exists w :: w in pm && Reaches(pm, u, w) && v in BodyEffects(pm[w].blocks))
    requires |mods| == |reach| && forall c :: 0 <= c < |mods| ==> mods[c] == reach[c] + globals
    ensures forall u :: u in pm ==> u in scc && scc[u] < |mods|
    ensures forall u, v :: u in pm ==>
      (v in mods[scc[u]] <==>
         v in globals || exists w :: w in pm && Reaches(pm, u, w) && v in BodyEffects(pm[w].blocks))
  {
  }

  /** The whole inference: once the globals are added to every propagated
      component, a procedure's component holds a variable exactly when it
      is a global or some procedure it reaches touches it. */
  lemma Inferred(decls: seq<Decl>, pm: ProcMap, s: State, mods0: seq<set<string>>, graph0: seq<set<nat>>,
                 mods: seq<set<string>>, globals: set<string>)
    requires DistinctProcNames(decls) && pm == ProcMapOf(decls) && Done(pm, s)
    requires AllEmpty(mods0) && AllEmpty(graph0) && |mods0| == |graph0| == s.numSccs
    requires |mods| == |mods0|
    requires forall c :: 0 <= c < |mods| ==>
      mods[c] == Pass(DirectMods(mods0, s.scc, decls), DeclsEdges(graph0, s.scc, decls), |mods0|)[c] + globals
    ensures forall u :: u in pm ==> u in s.scc && s.scc[u] < |mods|
    ensures forall u, v :: u in pm ==>
      (v in mods[s.scc[u]] <==>
         v in globals || exists w :: w in pm && Reaches(pm, u, w) && v in BodyEffects(pm[w].blocks))
  {
    AfterSearch(decls, pm, s, mods0, graph0);
    var reach := Pass(DirectMods(mods0, s.scc, decls), DeclsEdges(graph0, s.scc, decls), |mods0|);
    WithGlobals(pm, s.scc, reach, mods, globals);
  }
}
