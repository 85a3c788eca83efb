// The component search as functions of the search state, one per level of the
// recursive visit, taking the calls in the order the analysis meets them
// (blocks in order, statements in order). The class in gen_modifies.dfy is
// proved to compute exactly these; the lemmas here prove that what they
// compute satisfies the invariant of tarjan.dfy, and so the properties proved
// there about a finished search.
module Search {
  import opened Ast
  import opened CallGraph
  import opened Tarjan

  /** The indices handed out so far and the next one are positive, so an
      index read as 0 means "not visited". */
  predicate Positive(s: State) {
    s.maxIndex >= 1 && forall v :: v in s.index ==> s.index[v] >= 1
  }

  /** What every step keeps: indices stay positive, visited procedures stay
      visited, and the stack below the entry point is left as it was. */
  predicate Grows(s: State, r: State) {
    && Positive(r)
    && s.index.Keys <= r.index.Keys
    && |s.st| <= |r.st| && r.st[..|s.st|] == s.st
  }

  /** Completing the component rooted at p: entries are popped from the top,
      flagged off and given the next component number until p itself has been
      popped; then the number is used up. Nothing below the topmost p is
      touched. */
  function PopComponent(s: State, p: string): (r: State)
    requires p in s.st
    ensures r.index == s.index && r.low == s.low && r.maxIndex == s.maxIndex
    ensures |r.st| < |s.st| && r.st == s.st[..|r.st|]
    ensures forall k :: 0 <= k < |s.st| && s.st[k] == p ==> k <= |r.st|
    decreases |s.st|
  {
    var top := s.st[|s.st| - 1];
    var s' := s.(st := s.st[..|s.st| - 1],
                 onStack := s.onStack[top := false],
                 scc := s.scc[top := s.numSccs]);
    if top == p then
      s'.(numSccs := s.numSccs + 1)
    else
      assert s.st == s'.st + [top];
      var r := PopComponent(s', p);
      assert r.st == s.st[..|r.st|] by {
        assert s'.st[..|r.st|] == s.st[..|r.st|];
      }
      r
  }

  /** The visit of p: push it, take each call of its body in order, and
      complete its component when its low-link is still its own index. */
  function Visit(pm: ProcMap, s: State, p: string): (r: State)
    requires p in pm && p !in s.index && Positive(s)
    ensures Grows(s, r)
    decreases pm.Keys - s.index.Keys, 0, 0
  {
    var s1 := Push(s, p);
    assert p in pm.Keys - s.index.Keys;
    var s2 := VisitBlocks(pm, s1, p, pm[p].blocks);
    assert s2.st[|s.st|] == p by {
      assert s2.st[..|s1.st|] == s1.st;
    }
    if Lookup(s2.low, p) == Lookup(s2.index, p) then
      assert s2.st[..|s.st|] == s.st by {
        assert s2.st[..|s1.st|] == s1.st;
      }
      var r := PopComponent(s2, p);
      assert r.st[..|s.st|] == s.st by {
        assert r.st == s2.st[..|r.st|];
      }
      r
    else
      assert s2.st[..|s.st|] == s.st by {
        assert s2.st[..|s1.st|] == s1.st;
      }
      s2
  }

  /** The visit of p, step by step: p is still on the stack once its calls
      are handled, and the visit ends by completing its component or not. */
  lemma VisitSteps(pm: ProcMap, s: State, p: string, s2: State)
    requires p in pm && p !in s.index && Positive(s)
    requires s2 == VisitBlocks(pm, Push(s, p), p, pm[p].blocks)
    ensures p in s2.st
    ensures Visit(pm, s, p) == if Lookup(s2.low, p) == Lookup(s2.index, p) then PopComponent(s2, p) else s2
  {
    assert s2.st[..|s.st| + 1] == s.st + [p];
    assert s2.st[|s.st|] == p;
  }

  /** The outer loop of a visit of p: its blocks in order. */
  function VisitBlocks(pm: ProcMap, s: State, p: string, bs: seq<Block>): (r: State)
    requires Positive(s)
    ensures Grows(s, r)
    decreases pm.Keys - s.index.Keys, 3, |bs|
  {
    if bs == [] then s
    else
      var s' := VisitBlocks(pm, s, p, bs[..|bs| - 1]);
      var r := VisitStmts(pm, s', p, bs[|bs| - 1]);
      assert r.st[..|s.st|] == s.st by {
        assert r.st[..|s'.st|][..|s.st|] == r.st[..|s.st|];
      }
      r
  }

  /** The inner loop of a visit of p: the statements of one block in order;
      only calls matter. */
  function VisitStmts(pm: ProcMap, s: State, p: string, ss: seq<Stmt>): (r: State)
    requires Positive(s)
    ensures Grows(s, r)
    decreases pm.Keys - s.index.Keys, 2, |ss|
  {
    if ss == [] then s
    else
      var s' := VisitStmts(pm, s, p, ss[..|ss| - 1]);
      var last := ss[|ss| - 1];
      if last.CallStmt? then
        var r := VisitCallee(pm, s', p, last.callee);
        assert r.st[..|s.st|] == s.st by {
          assert r.st[..|s'.st|][..|s.st|] == r.st[..|s.st|];
        }
        r
      else s'
  }

  /** One call from p to q: a declared callee not yet visited is visited and
      p takes the minimum of the two low-links; a callee on the stack lowers
      p's low-link to at most its index; any other callee changes nothing. */
  function VisitCallee(pm: ProcMap, s: State, p: string, q: string): (r: State)
    requires Positive(s)
    ensures Grows(s, r)
    decreases pm.Keys - s.index.Keys, 1, 0
  {
    if q in pm && Lookup(s.index, q) == 0 then
      var sA := Visit(pm, s, q);
      sA.(low := sA.low[p := Min(Lookup(sA.low, p), Lookup(sA.low, q))])
    else if LookupFlag(s.onStack, q) then
      s.(low := s.low[p := Min(Lookup(s.low, p), Lookup(s.index, q))])
    else
      s
  }

  /** The search over the declarations: each procedure declaration not yet
      visited is visited, in declaration order. */
  function VisitDecls(pm: ProcMap, s: State, decls: seq<Decl>): (r: State)
    requires Positive(s)
    requires forall i :: 0 <= i < |decls| && decls[i].ProcDecl? ==> decls[i].proc.name in pm
    ensures Grows(s, r)
    decreases |decls|
  {
    if decls == [] then s
    else
      var init := decls[..|decls| - 1];
      assert forall i :: 0 <= i < |init| ==> init[i] == decls[i];
      var s' := VisitDecls(pm, s, init);
      var d := decls[|decls| - 1];
      if d.ProcDecl? && Lookup(s'.index, d.proc.name) == 0 then
        var r := Visit(pm, s', d.proc.name);
        assert r.st[..|s.st|] == s.st by {
          assert r.st[..|s'.st|][..|s.st|] == r.st[..|s.st|];
        }
        r
      else s'
  }

  // ---- one more step of each loop ----

  /** Visiting p leaves fewer declared procedures unvisited. */
  lemma Fewer(pm: ProcMap, before: map<string, nat>, after: map<string, nat>, p: string)
    requires p in pm && p !in before && p in after && before.Keys <= after.Keys
    ensures pm.Keys - after.Keys < pm.Keys - before.Keys
  {
    assert p in pm.Keys - before.Keys;
  }


  lemma VisitBlocksSnoc(pm: ProcMap, s: State, p: string, bs: seq<Block>, i: nat)
    requires Positive(s) && i < |bs|
    ensures VisitBlocks(pm, s, p, bs[..i + 1]) == VisitStmts(pm, VisitBlocks(pm, s, p, bs[..i]), p, bs[i])
  {
    assert bs[..i + 1][..i] == bs[..i];
  }

  lemma VisitStmtsSnoc(pm: ProcMap, s: State, p: string, ss: seq<Stmt>, j: nat)
    requires Positive(s) && j < |ss|
    ensures VisitStmts(pm, s, p, ss[..j + 1]) ==
      var s' := VisitStmts(pm, s, p, ss[..j]);
      if ss[j].CallStmt? then VisitCallee(pm, s', p, ss[j].callee) else s'
  {
    assert ss[..j + 1][..j] == ss[..j];
  }

  lemma VisitDeclsSnoc(pm: ProcMap, s: State, decls: seq<Decl>, i: nat)
    requires Positive(s) && i < |decls|
    requires forall k :: 0 <= k < |decls| && decls[k].ProcDecl? ==> decls[k].proc.name in pm
    ensures VisitDecls(pm, s, decls[..i + 1]) ==
      var s' := VisitDecls(pm, s, decls[..i]);
      if decls[i].ProcDecl? && Lookup(s'.index, decls[i].proc.name) == 0 then Visit(pm, s', decls[i].proc.name) else s'
  {
    assert decls[..i + 1][..i] == decls[..i];
  }

  // ---- completing a component pops exactly the root's segment ----

  lemma MarkOffSnoc(m: map<string, bool>, seg: seq<string>, x: string)
    ensures MarkOff(m[x := false], seg) == MarkOff(m, seg + [x])
  {
    var a := MarkOff(m[x := false], seg);
    var b := MarkOff(m, seg + [x]);
    assert forall v :: v in seg + [x] <==> v == x || v in seg;
    assert a.Keys == b.Keys;
    forall v | v in a
      ensures a[v] == b[v]
    {
    }
  }

  lemma AssignSccSnoc(m: map<string, nat>, seg: seq<string>, x: string, c: nat)
    ensures AssignScc(m[x := c], seg, c) == AssignScc(m, seg + [x], c)
  {
    var a := AssignScc(m[x := c], seg, c);
    var b := AssignScc(m, seg + [x], c);
    assert forall v :: v in seg + [x] <==> v == x || v in seg;
    assert a.Keys == b.Keys;
    forall v | v in a
      ensures a[v] == b[v]
    {
    }
  }

  lemma MarkOffNothing(m: map<string, bool>)
    ensures MarkOff(m, []) == m
  {
    assert MarkOff(m, []).Keys == m.Keys;
  }

  lemma AssignSccNothing(m: map<string, nat>, c: nat)
    ensures AssignScc(m, [], c) == m
  {
    assert AssignScc(m, [], c).Keys == m.Keys;
  }

  /** Popping until p, when p sits at position k with no other p above it,
      pops exactly the segment from k up. */
  lemma {:induction false} PopComponentIsPop(s: State, p: string, k: nat)
    requires k < |s.st| && s.st[k] == p
    requires forall i :: k < i < |s.st| ==> s.st[i] != p
    ensures PopComponent(s, p) == Pop(s, k)
    decreases |s.st|
  {
    var n := |s.st|;
    var top := s.st[n - 1];
    var s' := s.(st := s.st[..n - 1],
                 onStack := s.onStack[top := false],
                 scc := s.scc[top := s.numSccs]);
    assert s.st[k..] == s.st[k..n - 1] + [top];
    MarkOffSnoc(s.onStack, s.st[k..n - 1], top);
    AssignSccSnoc(s.scc, s.st[k..n - 1], top, s.numSccs);
    if top == p {
      assert k == n - 1;
      MarkOffNothing(s'.onStack);
      AssignSccNothing(s'.scc, s.numSccs);
    } else {
      assert s'.st[k..] == s.st[k..n - 1];
      PopComponentIsPop(s', p, k);
      assert s'.st[..k] == s.st[..k];
    }
  }

  // ---- what the search computes satisfies the invariant ----
  // Each lemma names the state r and the callee set done' it speaks about,
  // tied to the search functions by equalities, so that its conclusion is
  // literally the conclusion of the lemma it ends with.

  /** A visit started where the invariant holds ends where the visit's
      postcondition holds. */
  lemma {:induction false} VisitSound(pm: ProcMap, s: State, gray: set<string>, p: string, r: State)
    requires Inv(pm, s, gray) && p in pm && p !in s.index
    requires r == Visit(pm, s, p)
    ensures DfsPost(pm, s, r, gray, p)
    decreases pm.Keys - s.index.Keys, 0, 0
  {
    var s1 := Push(s, p);
    var blocks := pm[p].blocks;
    PushInv(pm, s, gray, p);
    assert p in pm.Keys - s.index.Keys;
    var sE := VisitBlocks(pm, s1, p, blocks);
    BlocksSound(pm, s, s1, gray, p, {}, blocks, sE, BlocksCallees(blocks));
    VisitEnds(pm, s, gray, p, sE, r);
  }

  /** Once every call of p's body is handled, completing p's component when
      p is a root, or leaving it on the stack otherwise, establishes the
      visit's postcondition. */
  lemma VisitEnds(pm: ProcMap, s: State, gray: set<string>, p: string, sE: State, r: State)
    requires p in pm && p !in s.index && Positive(s)
    requires sE == VisitBlocks(pm, Push(s, p), p, pm[p].blocks) && r == Visit(pm, s, p)
    requires LoopInv(pm, s, sE, gray, p, BlocksCallees(pm[p].blocks))
    ensures DfsPost(pm, s, r, gray, p)
  {
    VisitSteps(pm, s, p, sE);
    if Lookup(sE.low, p) == Lookup(sE.index, p) {
      RootOnTop(pm, s, sE, gray, p);
      PopComponentIsPop(sE, p, |s.st|);
      FinishRoot(pm, s, sE, gray, p);
      assert r == Pop(sE, |s.st|);
    } else {
      FinishInner(pm, s, sE, gray, p);
      assert r == sE;
    }
  }

  /** The loop over blocks keeps the loop invariant, every callee of the
      blocks being looked at. */
  lemma {:induction false} BlocksSound(pm: ProcMap, s0: State, s: State, gray: set<string>, p: string,
                                      done: set<string>, bs: seq<Block>, r: State, done': set<string>)
    requires p in pm && LoopInv(pm, s0, s, gray, p, done)
    requires BlocksCallees(bs) <= BlocksCallees(pm[p].blocks)
    requires r == VisitBlocks(pm, s, p, bs) && done' == done + BlocksCallees(bs)
    ensures LoopInv(pm, s0, r, gray, p, done')
    decreases pm.Keys - s.index.Keys, 5, |bs|
  {
    if bs == [] {
      assert r == s && done' == done;
    } else {
      var init := bs[..|bs| - 1];
      BlocksSound(pm, s0, s, gray, p, done, init, VisitBlocks(pm, s, p, init), done + BlocksCallees(init));
      BlockStep(pm, s0, s, gray, p, done, bs, r, done');
    }
  }

  /** One more block, from the state the earlier blocks led to. */
  lemma {:induction false} BlockStep(pm: ProcMap, s0: State, s: State, gray: set<string>, p: string,
                                    done: set<string>, bs: seq<Block>, r: State, done': set<string>)
    requires p in pm && Positive(s) && bs != []
    requires LoopInv(pm, s0, VisitBlocks(pm, s, p, bs[..|bs| - 1]), gray, p, done + BlocksCallees(bs[..|bs| - 1]))
    requires BlocksCallees(bs) <= BlocksCallees(pm[p].blocks)
    requires r == VisitBlocks(pm, s, p, bs) && done' == done + BlocksCallees(bs)
    ensures LoopInv(pm, s0, r, gray, p, done')
    decreases pm.Keys - s.index.Keys, 4, |bs|
  {
    var init := bs[..|bs| - 1];
    var last := bs[|bs| - 1];
    var sI := VisitBlocks(pm, s, p, init);
    assert done' == done + BlocksCallees(init) + StmtsCallees(last);
    StmtsSound(pm, s0, sI, gray, p, done + BlocksCallees(init), last, r, done');
  }

  /** The loop over one block's statements keeps the loop invariant. */
  lemma {:induction false} StmtsSound(pm: ProcMap, s0: State, s: State, gray: set<string>, p: string,
                                     done: set<string>, ss: seq<Stmt>, r: State, done': set<string>)
    requires p in pm && LoopInv(pm, s0, s, gray, p, done)
    requires StmtsCallees(ss) <= BlocksCallees(pm[p].blocks)
    requires r == VisitStmts(pm, s, p, ss) && done' == done + StmtsCallees(ss)
    ensures LoopInv(pm, s0, r, gray, p, done')
    decreases pm.Keys - s.index.Keys, 3, |ss|
  {
    if ss == [] {
      assert r == s && done' == done;
    } else {
      var init := ss[..|ss| - 1];
      StmtsSound(pm, s0, s, gray, p, done, init, VisitStmts(pm, s, p, init), done + StmtsCallees(init));
      StmtStep(pm, s0, s, gray, p, done, ss, r, done');
    }
  }

  /** One more statement, from the state the earlier statements led to. */
  lemma {:induction false} StmtStep(pm: ProcMap, s0: State, s: State, gray: set<string>, p: string,
                                   done: set<string>, ss: seq<Stmt>, r: State, done': set<string>)
    requires p in pm && Positive(s) && ss != []
    requires LoopInv(pm, s0, VisitStmts(pm, s, p, ss[..|ss| - 1]), gray, p, done + StmtsCallees(ss[..|ss| - 1]))
    requires StmtsCallees(ss) <= BlocksCallees(pm[p].blocks)
    requires r == VisitStmts(pm, s, p, ss) && done' == done + StmtsCallees(ss)
    ensures LoopInv(pm, s0, r, gray, p, done')
    decreases pm.Keys - s.index.Keys, 2, |ss|
  {
    var init := ss[..|ss| - 1];
    var last := ss[|ss| - 1];
    var sI := VisitStmts(pm, s, p, init);
    if last.CallStmt? {
      assert done' == done + StmtsCallees(init) + {last.callee};
      CalleeSound(pm, s0, sI, gray, p, done + StmtsCallees(init), last.callee, r, done');
    } else {
      assert r == sI && done' == done + StmtsCallees(init);
    }
  }

  /** Each of the three ways of handling a call keeps the loop invariant. */
  lemma {:induction false} CalleeSound(pm: ProcMap, s0: State, s: State, gray: set<string>, p: string,
                                      done: set<string>, q: string, r: State, done': set<string>)
    requires p in pm && LoopInv(pm, s0, s, gray, p, done)
    requires q in BlocksCallees(pm[p].blocks)
    requires r == VisitCallee(pm, s, p, q) && done' == done + {q}
    ensures LoopInv(pm, s0, r, gray, p, done')
    decreases pm.Keys - s.index.Keys, 1, 0
  {
    if q in pm && Lookup(s.index, q) == 0 {
      EdgeIffCallee(pm, p, q);
      var sA := Visit(pm, s, q);
      VisitSound(pm, s, gray + {p}, q, sA);
      ChildReturned(pm, s0, s, sA, gray, p, done, q);
      assert r == sA.(low := sA.low[p := Min(sA.low[p], sA.low[q])]);
    } else if LookupFlag(s.onStack, q) {
      assert q in s.st && q in s.index;
      EdgeIffCallee(pm, p, q);
      BackEdge(pm, s0, s, gray, p, done, q);
      assert r == s.(low := s.low[p := Min(s.low[p], s.index[q])]);
    } else {
      SkipCallee(pm, s0, s, gray, p, done, q);
      assert r == s;
    }
  }

  /** The search over the declarations keeps the invariant with an empty
      stack between top-level visits and visits every declared procedure. */
  lemma {:induction false} DeclsSound(pm: ProcMap, s: State, decls: seq<Decl>, r: State)
    requires Inv(pm, s, {}) && s.st == []
    requires forall i :: 0 <= i < |decls| && decls[i].ProcDecl? ==> decls[i].proc.name in pm
    requires r == VisitDecls(pm, s, decls)
    ensures Inv(pm, r, {}) && r.st == []
    ensures forall i :: 0 <= i < |decls| && decls[i].ProcDecl? ==> decls[i].proc.name in r.index
  {
    if decls == [] {
      assert r == s;
    } else {
      var init := decls[..|decls| - 1];
      assert forall i :: 0 <= i < |init| ==> init[i] == decls[i];
      DeclsSound(pm, s, init, VisitDecls(pm, s, init));
      DeclStep(pm, s, decls, r);
    }
  }

  /** One more declaration, from the state the earlier ones led to. */
  lemma {:induction false} DeclStep(pm: ProcMap, s: State, decls: seq<Decl>, r: State)
    requires Positive(s) && decls != []
    requires forall i :: 0 <= i < |decls| && decls[i].ProcDecl? ==> decls[i].proc.name in pm
    requires Inv(pm, VisitDecls(pm, s, decls[..|decls| - 1]), {})
    requires VisitDecls(pm, s, decls[..|decls| - 1]).st == []
    requires forall i :: 0 <= i < |decls| - 1 && decls[i].ProcDecl? ==>
      decls[i].proc.name in VisitDecls(pm, s, decls[..|decls| - 1]).index
    requires r == VisitDecls(pm, s, decls)
    ensures Inv(pm, r, {}) && r.st == []
    ensures forall i :: 0 <= i < |decls| && decls[i].ProcDecl? ==> decls[i].proc.name in r.index
  {
    var init := decls[..|decls| - 1];
    assert forall i :: 0 <= i < |init| ==> init[i] == decls[i];
    var sI := VisitDecls(pm, s, init);
    var d := decls[|decls| - 1];
    if d.ProcDecl? && Lookup(sI.index, d.proc.name) == 0 {
      assert r == Visit(pm, sI, d.proc.name);
      VisitSound(pm, sI, {}, d.proc.name, r);
      TopLevelVisitEmptiesStack(pm, sI, r, d.proc.name);
    } else {
      assert r == sI;
    }
  }

  /** The search over a program's declarations, from the initial state and
      with the procedures recorded under their names, finishes the search:
      empty stack, every declared procedure visited and the invariant kept. */
  lemma SearchComplete(decls: seq<Decl>)
    requires DistinctProcNames(decls)
    ensures Done(ProcMapOf(decls), VisitDecls(ProcMapOf(decls), Initial(), decls))
  {
    var pm := ProcMapOf(decls);
    var r := VisitDecls(pm, Initial(), decls);
    InitialInv(pm);
    DeclsSound(pm, Initial(), decls, r);
    ProcMapOfDecls(decls);
    forall n | n in pm
      ensures n in r.index
    {
      var i :| 0 <= i < |decls| && decls[i].ProcDecl? && decls[i].proc.name == n;
    }
  }
}
