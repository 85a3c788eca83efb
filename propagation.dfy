// The propagation of modifies sets up the component graph, as a function of
// the sets and the graph. Component c's set is mods[c]; graph[c] holds the
// components that call into c (its parents). The source makes one pass over
// the children in ascending order, adding each child's current set to each
// of its parents. Since every parent is numbered after its children, one pass
// leaves in each set exactly what flows into it along paths of the graph.
module Propagation {

  /** Every parent named in the graph is a valid slot, and the graph has one
      entry per slot. */
  ghost predicate GraphFits(mods: seq<set<string>>, graph: seq<set<nat>>) {
    |graph| == |mods| && forall c, p :: 0 <= c < |graph| && p in graph[c] ==> p < |mods|
  }

  /** Parents are numbered after their children, and the reserved slot 0 has
      no parents. */
  ghost predicate Ascending(graph: seq<set<nat>>) {
    && (|graph| > 0 ==> graph[0] == {})
    && forall c, p :: 0 <= c < |graph| && p in graph[c] ==> c < p
  }

  /** The sets after the parents in ps have each got child's set. */
  function StepOn(mods: seq<set<string>>, child: nat, ps: set<nat>): (r: seq<set<string>>)
    requires child < |mods|
    ensures |r| == |mods|
  {
    seq(|mods|, c requires 0 <= c < |mods| => if c in ps then mods[c] + mods[child] else mods[c])
  }

  /** The sets after handling one child: each of its parents also gets the
      child's set. */
  function Step(mods: seq<set<string>>, graph: seq<set<nat>>, child: nat): (r: seq<set<string>>)
    requires child < |mods| && |graph| == |mods|
    ensures |r| == |mods|
  {
    StepOn(mods, child, graph[child])
  }

  /** Adding child's set to one more parent p. */
  lemma StepOnMore(mods: seq<set<string>>, child: nat, ps: set<nat>, p: nat)
    requires child < |mods| && p < |mods|
    ensures var m := StepOn(mods, child, ps);
      StepOn(mods, child, ps + {p}) == m[p := m[p] + m[child]]
  {
    var m := StepOn(mods, child, ps);
    var m' := StepOn(mods, child, ps + {p});
    assert m[child] == mods[child];
    assert forall c :: 0 <= c < |mods| ==> m'[c] == m[p := m[p] + m[child]][c];
  }

  /** The sets after handling children 1 .. k - 1 in ascending order. */
  function Pass(mods: seq<set<string>>, graph: seq<set<nat>>, k: nat): (r: seq<set<string>>)
    requires k <= |mods| && |graph| == |mods|
    ensures |r| == |mods|
    decreases k
  {
    if k <= 1 then mods else Step(Pass(mods, graph, k - 1), graph, k - 1)
  }

  /** A path of n edges from component e up to component c. */
  ghost predicate PathIn(graph: seq<set<nat>>, e: nat, c: nat, n: nat)
    decreases n
  {
    if n == 0 then e == c
    else exists d: nat :: d < |graph| && c in graph[d] && PathIn(graph, e, d, n - 1)
  }

  /** v flows into component c: some component with a path up to c has v in
      its own set. */
  ghost predicate Flows(mods: seq<set<string>>, graph: seq<set<nat>>, c: nat, v: string) {
    exists e: nat, n: nat :: e < |mods| && PathIn(graph, e, c, n) && v in mods[e]
  }

  /** What flows into c is c's own set and what flows into its children. */
  lemma FlowsUnfold(mods: seq<set<string>>, graph: seq<set<nat>>, c: nat, v: string)
    requires c < |mods|
    ensures Flows(mods, graph, c, v) <==>
      v in mods[c] || exists d: nat :: d < |graph| && c in graph[d] && Flows(mods, graph, d, v)
  {
    if Flows(mods, graph, c, v) {
      var e: nat, n: nat :| e < |mods| && PathIn(graph, e, c, n) && v in mods[e];
      if n > 0 {
        var d: nat :| d < |graph| && c in graph[d] && PathIn(graph, e, d, n - 1);
        assert Flows(mods, graph, d, v);
      }
    }
    if exists d: nat :: d < |graph| && c in graph[d] && Flows(mods, graph, d, v) {
      var d: nat :| d < |graph| && c in graph[d] && Flows(mods, graph, d, v);
      var e: nat, n: nat :| e < |mods| && PathIn(graph, e, d, n) && v in mods[e];
      assert PathIn(graph, e, c, n + 1);
    }
    assert PathIn(graph, c, c, 0);
  }

  /** v reaches c from a child handled before k, or is c's own. */
  ghost predicate FromBelow(mods: seq<set<string>>, graph: seq<set<nat>>, k: nat, c: nat, v: string) {
    exists d: nat :: 1 <= d < k && d < |graph| && c in graph[d] && Flows(mods, graph, d, v)
  }

  /** After handling children 1 .. k - 1, a set holds its own names and what
      flows in through those children. */
  lemma {:induction false} PassSoFar(mods: seq<set<string>>, graph: seq<set<nat>>, k: nat, c: nat, v: string)
    requires GraphFits(mods, graph) && Ascending(graph)
    requires 1 <= k <= |mods| && c < |mods|
    ensures v in Pass(mods, graph, k)[c] <==> v in mods[c] || FromBelow(mods, graph, k, c, v)
    decreases k
  {
    if k > 1 {
      var j := k - 1;
      var prev := Pass(mods, graph, j);
      PassSoFar(mods, graph, j, c, v);
      PassSoFar(mods, graph, j, j, v);
      ChildComplete(mods, graph, j, v);
      assert v in Pass(mods, graph, k)[c] <==> v in prev[c] || (c in graph[j] && v in prev[j]);
      if FromBelow(mods, graph, k, c, v) && !FromBelow(mods, graph, j, c, v) {
        var d: nat :| 1 <= d < k && d < |graph| && c in graph[d] && Flows(mods, graph, d, v);
        assert d == j;
      }
      if c in graph[j] && Flows(mods, graph, j, v) {
        assert FromBelow(mods, graph, k, c, v);
      }
      if FromBelow(mods, graph, j, c, v) {
        var d: nat :| 1 <= d < j && d < |graph| && c in graph[d] && Flows(mods, graph, d, v);
        assert FromBelow(mods, graph, k, c, v);
      }
    }
  }

  /** When child j is reached, all of j's children are below j, so what its
      set holds by then is everything that flows into it. */
  lemma ChildComplete(mods: seq<set<string>>, graph: seq<set<nat>>, j: nat, v: string)
    requires GraphFits(mods, graph) && Ascending(graph)
    requires 1 <= j < |mods|
    ensures v in mods[j] || FromBelow(mods, graph, j, j, v) <==> Flows(mods, graph, j, v)
  {
    FlowsUnfold(mods, graph, j, v);
    if exists d: nat :: d < |graph| && j in graph[d] && Flows(mods, graph, d, v) {
      var d: nat :| d < |graph| && j in graph[d] && Flows(mods, graph, d, v);
      assert d != 0;
      assert FromBelow(mods, graph, j, j, v);
    }
  }

  /** One ascending pass leaves in every set exactly what flows into it. */
  lemma PassComputesFlow(mods: seq<set<string>>, graph: seq<set<nat>>, c: nat, v: string)
    requires GraphFits(mods, graph) && Ascending(graph)
    requires c < |mods|
    ensures v in Pass(mods, graph, |mods|)[c] <==> Flows(mods, graph, c, v)
  {
    PassSoFar(mods, graph, |mods|, c, v);
    FlowsUnfold(mods, graph, c, v);
    if exists d: nat :: d < |graph| && c in graph[d] && Flows(mods, graph, d, v) {
      var d: nat :| d < |graph| && c in graph[d] && Flows(mods, graph, d, v);
      assert d != 0;
      assert FromBelow(mods, graph, |mods|, c, v);
    }
  }

  /** The pass only ever adds names. */
  lemma {:induction false} PassGrows(mods: seq<set<string>>, graph: seq<set<nat>>, k: nat, c: nat)
    requires |graph| == |mods| && k <= |mods| && c < |mods|
    ensures mods[c] <= Pass(mods, graph, k)[c]
    decreases k
  {
    if k > 1 {
      PassGrows(mods, graph, k - 1, c);
    }
  }
}
