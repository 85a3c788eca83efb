// The modifies inference pass: a class whose fields are the pass's working
// state, with one method per step of the source. The component search keeps
// Tarjan's state (stack, flags, indices, low-links, components, next index);
// modVars holds one set of touched globals per component slot and sccGraph
// the parent components of each component. Slot 0 of both is reserved: a
// component number 0, like an index 0, means "absent".
module GenModifies {
  import opened Ast
  import opened CallGraph
  import opened Tarjan
  import opened Search
  import opened Globals
  import opened Direct
  import opened SccGraph
  import opened Propagation
  import opened Ordered
  import opened Inference

  class GenModifies {
    var proc: map<string, Procedure>
    var st: seq<string>
    var onStack: map<string, bool>
    var index: map<string, nat>
    var low: map<string, nat>
    var sccOfProc: map<string, nat>
    var maxIndex: nat
    var modVars: seq<set<string>>
    var sccGraph: seq<set<nat>>

    /** The search state as a value; the number of component slots is the
        length of modVars. */
    ghost function Snapshot(): State
      reads this
    {
      State(st, onStack, index, low, sccOfProc, maxIndex, |modVars|)
    }

    /** During the search every slot is still empty and the two vectors grow
        together. */
    ghost predicate Unfilled()
      reads this`modVars, this`sccGraph
    {
      && |sccGraph| == |modVars|
      && (forall c :: 0 <= c < |modVars| ==> modVars[c] == {})
      && (forall c :: 0 <= c < |sccGraph| ==> sccGraph[c] == {})
    }

    /** Each procedure is recorded under its own name. */
    ghost predicate NamesMatch()
      reads this`proc
    {
      forall n :: n in proc ==> proc[n].name == n
    }

    /** A new pass: nothing visited, indices start at 1, one reserved slot. */
    constructor ()
      ensures proc == map[] && Snapshot() == Initial()
      ensures modVars == [{}] && sccGraph == [{}]
    {
      proc := map[];
      st := [];
      onStack := map[];
      index := map[];
      low := map[];
      sccOfProc := map[];
      maxIndex := 1;
      modVars := [{}];
      sccGraph := [{}];
    }

    /** Records every procedure declaration under its name. */
    method InitProcMap(program: Program)
      modifies this`proc
      ensures proc == old(proc) + ProcMapOf(program.decls)
    {
      var decls := program.decls;
      var i := 0;
      while i < |decls|
        invariant i <= |decls|
        invariant proc == old(proc) + ProcMapOf(decls[..i])
      {
        assert decls[..i + 1][..i] == decls[..i];
        if decls[i].ProcDecl? {
          proc := proc[decls[i].proc.name := decls[i].proc];
        }
        i := i + 1;
      }
      assert decls[..i] == decls;
    }

    /** Visits procedure pd: pushes it with the next index as index and
        low-link, handles each call of its body in order, and completes its
        component if it turned out a root. */
    method Dfs(pd: Procedure)
      requires NamesMatch() && pd.name in proc && proc[pd.name] == pd
      requires pd.name !in index && Positive(Snapshot()) && Unfilled()
      modifies this`st, this`onStack, this`index, this`low, this`sccOfProc, this`maxIndex,
               this`modVars, this`sccGraph
      ensures Snapshot() == Visit(proc, old(Snapshot()), pd.name)
      ensures Unfilled()
      decreases proc.Keys - index.Keys, 0
    {
      var name := pd.name;
      ghost var s0 := Snapshot();
      st := st + [name];
      onStack := onStack[name := true];
      index := index[name := maxIndex];
      low := low[name := maxIndex];
      maxIndex := maxIndex + 1;
      ghost var s1 := Snapshot();
      assert s1 == Push(s0, name);
      var i := 0;
      while i < |pd.blocks|
        invariant i <= |pd.blocks| && Unfilled()
        invariant Snapshot() == VisitBlocks(proc, s1, name, pd.blocks[..i])
        invariant name in index && Positive(Snapshot())
        invariant s0.index.Keys <= index.Keys
      {
        VisitBlocksSnoc(proc, s1, name, pd.blocks, i);
        Fewer(proc, s0.index, index, name);
        VisitBlock(name, pd.blocks[i]);
        i := i + 1;
      }
      assert pd.blocks[..i] == pd.blocks;
      ghost var s2 := Snapshot();
      VisitSteps(proc, s0, name, s2);
      assert st == s2.st;
      if Lookup(low, name) == Lookup(index, name) {
        AddNewScc(name);
      }
    }

    /** The statements of one block of name's body, in order: each call
        is handled by VisitCall, every other statement is skipped. */
    method VisitBlock(name: string, block: Block)
      requires NamesMatch() && name in index && Positive(Snapshot()) && Unfilled()
      modifies this`st, this`onStack, this`index, this`low, this`sccOfProc, this`maxIndex,
               this`modVars, this`sccGraph
      ensures Snapshot() == VisitStmts(proc, old(Snapshot()), name, block)
      ensures name in index && Positive(Snapshot()) && Unfilled()
      decreases proc.Keys - index.Keys, 2
    {
      var j := 0;
      while j < |block|
        invariant j <= |block| && Unfilled()
        invariant Snapshot() == VisitStmts(proc, old(Snapshot()), name, block[..j])
      {
        VisitStmtsSnoc(proc, old(Snapshot()), name, block, j);
        if block[j].CallStmt? {
          VisitCall(name, block[j].callee);
        }
        j := j + 1;
      }
      assert block[..j] == block;
    }

    /** The handling of one call from name, in progress, to next: a declared
        callee not yet visited is visited and name takes the minimum of the
        two low-links; a callee on the stack lowers name's low-link to at
        most the callee's index; any other callee is left alone. */
    method VisitCall(name: string, next: string)
      requires NamesMatch() && name in index && Positive(Snapshot()) && Unfilled()
      modifies this`st, this`onStack, this`index, this`low, this`sccOfProc, this`maxIndex,
               this`modVars, this`sccGraph
      ensures Snapshot() == VisitCallee(proc, old(Snapshot()), name, next)
      ensures Unfilled()
      decreases proc.Keys - index.Keys, 1
    {
      if next in proc && Lookup(index, next) == 0 {
        Dfs(proc[next]);
        low := low[name := Min(Lookup(low, name), Lookup(low, next))];
      } else if LookupFlag(onStack, next) {
        low := low[name := Min(Lookup(low, name), Lookup(index, next))];
      }
    }

    /** Completes the component rooted at p: pops down to and including p,
        flags each popped name off the stack, gives each the component number
        |modVars| and opens a new empty slot in both vectors. */
    method AddNewScc(p: string)
      requires p in st && Unfilled()
      modifies this`st, this`onStack, this`sccOfProc, this`modVars, this`sccGraph
      ensures Snapshot() == PopComponent(old(Snapshot()), p) && Unfilled()
      ensures modVars == old(modVars) + [{}] && sccGraph == old(sccGraph) + [{}]
    {
      ghost var r := PopComponent(Snapshot(), p);
      var toAdd;
      while true
        invariant p in st && PopComponent(Snapshot(), p) == r
        invariant modVars == old(modVars) && sccGraph == old(sccGraph)
        decreases |st|
      {
        ghost var before := Snapshot();
        toAdd := st[|st| - 1];
        st := st[..|st| - 1];
        onStack := onStack[toAdd := false];
        sccOfProc := sccOfProc[toAdd := |modVars|];
        ghost var popped := before.(st := st, onStack := onStack, scc := sccOfProc);
        assert Snapshot() == popped;
        if toAdd == p {
          assert r == popped.(numSccs := before.numSccs + 1);
          break;
        }
        assert before.st == st + [toAdd];
        assert PopComponent(before, p) == PopComponent(popped, p);
      }
      modVars := modVars + [{}];
      sccGraph := sccGraph + [{}];
    }

    /** The search over all procedures: each procedure declaration whose
        index is still 0 is visited, in declaration order. */
    method GenSccs(program: Program)
      requires NamesMatch() && Positive(Snapshot()) && Unfilled()
      requires forall d :: d in program.decls && d.ProcDecl? ==> d.proc.name in proc && proc[d.proc.name] == d.proc
      modifies this`st, this`onStack, this`index, this`low, this`sccOfProc, this`maxIndex,
               this`modVars, this`sccGraph
      ensures Snapshot() == VisitDecls(proc, old(Snapshot()), program.decls)
      ensures Unfilled()
    {
      var decls := program.decls;
      var i := 0;
      while i < |decls|
        invariant i <= |decls| && Unfilled()
        invariant Snapshot() == VisitDecls(proc, old(Snapshot()), decls[..i])
      {
        VisitDeclsSnoc(proc, old(Snapshot()), decls, i);
        if decls[i].ProcDecl? && Lookup(index, decls[i].proc.name) == 0 {
          Dfs(decls[i].proc);
        }
        i := i + 1;
      }
      assert decls[..i] == decls;
    }
  
    // ---- what each component touches directly ----

    /** Records name in the set of procName's component when the search for a
        memory global succeeds in it. The substitution the source applies puts
        the matched text back in place, so the whole name is recorded. */
    method AddIfGlobalVar(exprName: string, procName: string)
      requires Lookup(sccOfProc, procName) < |modVars|
      modifies this`modVars
      ensures modVars == AddTo(old(modVars), Lookup(sccOfProc, procName),
                               if IsGlobalVarName(exprName) then {exprName} else {})
    {
      var c := Lookup(sccOfProc, procName);
      if IsGlobalVarName(exprName) {
        modVars := modVars[c := modVars[c] + {exprName}];
      } else {
        AddToNothing(modVars, c);
      }
    }

    /** Records the memory globals among the variable references of exprs. */
    method CalcModifiesOfExprs(exprs: seq<Expr>, procName: string)
      requires Lookup(sccOfProc, procName) < |modVars|
      modifies this`modVars
      ensures modVars == AddTo(old(modVars), Lookup(sccOfProc, procName), ExprsEffects(exprs))
    {
      var c := Lookup(sccOfProc, procName);
      AddToNothing(modVars, c);
      assert ExprsEffects(exprs[..0]) == {};
      var k := 0;
      while k < |exprs|
        invariant k <= |exprs|
        invariant modVars == AddTo(old(modVars), c, ExprsEffects(exprs[..k]))
      {
        ExprsEffectsSnoc(exprs, k);
        if exprs[k].VarExpr? {
          AddIfGlobalVar(exprs[k].name, procName);
          AddToTwice(old(modVars), c, ExprsEffects(exprs[..k]),
                     if IsGlobalVarName(exprs[k].name) then {exprs[k].name} else {});
        } else {
          assert ExprsEffects(exprs[..k + 1]) == ExprsEffects(exprs[..k]);
        }
        k := k + 1;
      }
      assert exprs[..k] == exprs;
    }

    /** Records the globals one statement of procName touches. */
    method CalcModifiesOfStmt(stmt: Stmt, procName: string)
      requires Lookup(sccOfProc, procName) < |modVars|
      modifies this`modVars
      ensures modVars == AddTo(old(modVars), Lookup(sccOfProc, procName), StmtEffects(stmt))
    {
      var c := Lookup(sccOfProc, procName);
      match stmt
      case AssignStmt(lhs, rhs) =>
        CalcModifiesOfExprs(lhs, procName);
        assert FunArgsEffects(rhs[..0]) == {};
        assert ExprsEffects(lhs) + {} == ExprsEffects(lhs);
        var k := 0;
        while k < |rhs|
          invariant k <= |rhs|
          invariant modVars == AddTo(old(modVars), c, ExprsEffects(lhs) + FunArgsEffects(rhs[..k]))
        {
          FunArgsEffectsSnoc(rhs, k);
          if rhs[k].FunExpr? {
            CalcModifiesOfExprs(rhs[k].args, procName);
            AddToTwice(old(modVars), c, ExprsEffects(lhs) + FunArgsEffects(rhs[..k]), ExprsEffects(rhs[k].args));
            assert ExprsEffects(lhs) + FunArgsEffects(rhs[..k + 1])
                == ExprsEffects(lhs) + FunArgsEffects(rhs[..k]) + ExprsEffects(rhs[k].args);
          } else {
            assert FunArgsEffects(rhs[..k + 1]) == FunArgsEffects(rhs[..k]);
          }
          k := k + 1;
        }
        assert rhs[..k] == rhs;
      case CallStmt(_, params, rets) =>
        AddToNothing(modVars, c);
        assert NamesEffects(rets[..0]) == {};
        var k := 0;
        while k < |rets|
          invariant k <= |rets|
          invariant modVars == AddTo(old(modVars), c, NamesEffects(rets[..k]))
        {
          NamesEffectsSnoc(rets, k);
          AddIfGlobalVar(rets[k], procName);
          AddToTwice(old(modVars), c, NamesEffects(rets[..k]),
                     if IsGlobalVarName(rets[k]) then {rets[k]} else {});
          k := k + 1;
        }
        assert rets[..k] == rets;
        CalcModifiesOfExprs(params, procName);
        AddToTwice(old(modVars), c, NamesEffects(rets), ExprsEffects(params));
      case OtherStmt =>
        AddToNothing(modVars, c);
    }

    /** Records, for every statement of every procedure declaration, what it
        touches in the set of the procedure's component. */
    method CalcModifiesOfSccs(program: Program)
      requires SlotsFit(modVars, sccOfProc, program.decls)
      modifies this`modVars
      ensures modVars == DirectMods(old(modVars), sccOfProc, program.decls)
    {
      var decls := program.decls;
      var i := 0;
      while i < |decls|
        invariant i <= |decls| && |modVars| == |old(modVars)|
        invariant SlotsFit(old(modVars), sccOfProc, decls[..i])
        invariant modVars == DirectMods(old(modVars), sccOfProc, decls[..i])
      {
        assert decls[..i + 1][..i] == decls[..i];
        assert SlotsFit(old(modVars), sccOfProc, decls[..i + 1]);
        if decls[i].ProcDecl? {
          var pd := decls[i].proc;
          CalcModifiesOfBody(pd.blocks, pd.name);
        }
        i := i + 1;
      }
      assert decls[..i] == decls;
    }

    /** The block and statement loops of CalcModifiesOfSccs, for one
        procedure. */
    method CalcModifiesOfBody(blocks: seq<Block>, procName: string)
      requires Lookup(sccOfProc, procName) < |modVars|
      modifies this`modVars
      ensures modVars == AddTo(old(modVars), Lookup(sccOfProc, procName), BodyEffects(blocks))
    {
      var c := Lookup(sccOfProc, procName);
      AddToNothing(modVars, c);
      var j := 0;
      while j < |blocks|
        invariant j <= |blocks|
        invariant modVars == AddTo(old(modVars), c, BodyEffects(blocks[..j]))
      {
        assert blocks[..j + 1][..j] == blocks[..j];
        CalcModifiesOfBlock(blocks[j], procName);
        AddToTwice(old(modVars), c, BodyEffects(blocks[..j]), StmtsEffects(blocks[j]));
        j := j + 1;
      }
      assert blocks[..j] == blocks;
    }

    /** The statement loop of CalcModifiesOfSccs, for one block. */
    method CalcModifiesOfBlock(block: Block, procName: string)
      requires Lookup(sccOfProc, procName) < |modVars|
      modifies this`modVars
      ensures modVars == AddTo(old(modVars), Lookup(sccOfProc, procName), StmtsEffects(block))
    {
      var c := Lookup(sccOfProc, procName);
      AddToNothing(modVars, c);
      assert StmtsEffects(block[..0]) == {};
      var k := 0;
      while k < |block|
        invariant k <= |block|
        invariant modVars == AddTo(old(modVars), c, StmtsEffects(block[..k]))
      {
        assert block[..k + 1][..k] == block[..k];
        CalcModifiesOfStmt(block[k], procName);
        AddToTwice(old(modVars), c, StmtsEffects(block[..k]), StmtEffects(block[k]));
        k := k + 1;
      }
      assert block[..k] == block;
    }

    // ---- the component graph ----

    /** The call to callee, from a procedure of component parentScc: the
        callee's component gets parentScc as a parent unless it is 0 (no
        component) or parentScc itself. */
    method AddEdge(callee: string, parentScc: nat)
      requires NumbersFit(sccGraph, sccOfProc)
      modifies this`sccGraph
      ensures sccGraph == SccGraph.AddEdge(old(sccGraph), sccOfProc, callee, parentScc)
    {
      var childScc := Lookup(sccOfProc, callee);
      if childScc != 0 && childScc != parentScc {
        sccGraph := sccGraph[childScc := sccGraph[childScc] + {parentScc}];
      }
    }

    /** Adds an edge for every call of every procedure declaration. */
    method GenSccGraph(program: Program)
      requires NumbersFit(sccGraph, sccOfProc)
      modifies this`sccGraph
      ensures sccGraph == DeclsEdges(old(sccGraph), sccOfProc, program.decls)
    {
      var decls := program.decls;
      var i := 0;
      while i < |decls|
        invariant i <= |decls| && |sccGraph| == |old(sccGraph)|
        invariant sccGraph == DeclsEdges(old(sccGraph), sccOfProc, decls[..i])
      {
        assert decls[..i + 1][..i] == decls[..i];
        if decls[i].ProcDecl? {
          var pd := decls[i].proc;
          var curScc := Lookup(sccOfProc, pd.name);
          ghost var g0 := sccGraph;
          var j := 0;
          while j < |pd.blocks|
            invariant j <= |pd.blocks| && |sccGraph| == |old(sccGraph)|
            invariant sccGraph == BodyEdges(g0, sccOfProc, pd.blocks[..j], curScc)
          {
            var block := pd.blocks[j];
            assert pd.blocks[..j + 1][..j] == pd.blocks[..j];
            ghost var g1 := sccGraph;
            var k := 0;
            while k < |block|
              invariant k <= |block| && |sccGraph| == |old(sccGraph)|
              invariant sccGraph == StmtsEdges(g1, sccOfProc, block[..k], curScc)
            {
              assert block[..k + 1][..k] == block[..k];
              if block[k].CallStmt? {
                AddEdge(block[k].callee, curScc);
              }
              k := k + 1;
            }
            assert block[..k] == block;
            j := j + 1;
          }
          assert pd.blocks[..j] == pd.blocks;
        }
        i := i + 1;
      }
      assert decls[..i] == decls;
    }

    // ---- propagation, the Boogie globals, the modifies lists ----

    /** One pass over the children in ascending order: each parent of a
        child gets the child's current set. */
    method PropagateModifiesUpGraph()
      requires GraphFits(modVars, sccGraph)
      modifies this`modVars
      ensures |modVars| == |old(modVars)|
      ensures modVars == Pass(old(modVars), sccGraph, |modVars|)
    {
      var child := 1;
      while child < |sccGraph|
        invariant |modVars| == |sccGraph|
        invariant 1 <= child && (child <= |sccGraph| || |sccGraph| == 0)
        invariant modVars == Pass(old(modVars), sccGraph, if child <= |sccGraph| then child else 0)
      {
        ghost var prev := modVars;
        var rest := sccGraph[child];
        while rest != {}
          invariant rest <= sccGraph[child]
          invariant modVars == StepOn(prev, child, sccGraph[child] - rest)
          decreases |rest|
        {
          var parent :| parent in rest;
          StepOnMore(prev, child, sccGraph[child] - rest, parent);
          modVars := modVars[parent := modVars[parent] + modVars[child]];
          assert sccGraph[child] - (rest - {parent}) == (sccGraph[child] - rest) + {parent};
          rest := rest - {parent};
        }
        assert sccGraph[child] - rest == sccGraph[child];
        child := child + 1;
      }
      if |sccGraph| == 0 {
        assert modVars == old(modVars);
      }
    }

    /** Every component also gets the Boogie globals. */
    method AddSmackGlobals(bplGlobals: set<string>)
      modifies this`modVars
      ensures |modVars| == |old(modVars)|
      ensures forall c :: 0 <= c < |modVars| ==> modVars[c] == old(modVars)[c] + bplGlobals
    {
      var scc := 0;
      while scc < |modVars|
        invariant scc <= |modVars| == |old(modVars)|
        invariant forall c :: 0 <= c < scc ==> modVars[c] == old(modVars)[c] + bplGlobals
        invariant forall c :: scc <= c < |modVars| ==> modVars[c] == old(modVars)[c]
      {
        modVars := modVars[scc := modVars[scc] + bplGlobals];
        scc := scc + 1;
      }
    }

    /** Appends to the modifies list of every procedure declaration with a
        body the set of its component, in ascending order; declarations
        without a body and all other declarations are left as they are. */
    method AddModifies(program: Program)
      requires forall i :: 0 <= i < |program.decls| && program.decls[i].ProcDecl? ==>
        Lookup(sccOfProc, program.decls[i].proc.name) < |modVars|
      modifies program`decls
      ensures |program.decls| == |old(program.decls)|
      ensures forall i :: 0 <= i < |program.decls| ==>
        Appended(old(program.decls)[i], program.decls[i], modVars, sccOfProc)
    {
      var i := 0;
      while i < |program.decls|
        invariant i <= |program.decls| == |old(program.decls)|
        invariant forall k :: 0 <= k < i ==> Appended(old(program.decls)[k], program.decls[k], modVars, sccOfProc)
        invariant forall k :: i <= k < |program.decls| ==> program.decls[k] == old(program.decls)[k]
      {
        var decl := program.decls[i];
        if decl.ProcDecl? && decl.proc.blocks != [] {
          var index := Lookup(sccOfProc, decl.proc.name);
          var added := SortedElements(modVars[index]);
          var pd := decl.proc.(modList := decl.proc.modList + added);
          assert pd.modList[|decl.proc.modList|..] == added;
          program.decls := program.decls[i := ProcDecl(pd)];
        }
        i := i + 1;
      }
    }

    /** The whole inference over the user's procedures. The search finds
        every component; afterwards each procedure's component holds the
        Boogie globals and exactly the memory-global names (BodyEffects) that
        the procedures it reaches, itself included, mention as assignment
        targets, function arguments on a right-hand side, call returns or
        call arguments; every procedure declaration with a body has that set
        appended to its modifies list in ascending order. */
    method GenUserCodeModifies(program: Program, bplGlobals: set<string>)
      requires proc == ProcMapOf(program.decls) && DistinctProcNames(program.decls)
      requires Snapshot() == Initial() && modVars == [{}] && sccGraph == [{}]
      modifies this`st, this`onStack, this`index, this`low, this`sccOfProc, this`maxIndex,
               this`modVars, this`sccGraph, program`decls
      ensures Done(proc, Snapshot())
      ensures forall u :: u in proc ==> u in sccOfProc && sccOfProc[u] < |modVars|
      ensures forall u, v :: u in proc ==>
        (v in modVars[sccOfProc[u]] <==>
           v in bplGlobals || exists w :: w in proc && Reaches(proc, u, w) && v in BodyEffects(proc[w].blocks))
      ensures |program.decls| == |old(program.decls)|
      ensures forall i :: 0 <= i < |program.decls| ==>
        Appended(old(program.decls)[i], program.decls[i], modVars, sccOfProc)
    {
      ghost var decls := program.decls;
      DeclaredProcs(decls);
      GenSccs(program);
      SearchComplete(decls);
      ghost var s := Snapshot();
      assert Done(proc, s);
      ghost var mods0, graph0 := modVars, sccGraph;
      FitsAfterSearch(decls, proc, s, mods0, graph0);
      CalcModifiesOfSccs(program);
      ghost var direct := modVars;
      assert Snapshot() == s;
      GenSccGraph(program);
      ghost var edges := sccGraph;
      assert Snapshot() == s;
      PropagateModifiesUpGraph();
      assert modVars == Pass(direct, edges, |mods0|);
      assert Snapshot() == s;
      AddSmackGlobals(bplGlobals);
      Inferred(decls, proc, s, mods0, graph0, modVars, bplGlobals);
      AddModifies(program);
      DoneStays(proc, s, Snapshot());
    }
  }

  /** The completed search is done whatever state it is read back from.
      This lemma only guides the verifier: stated for plain values, it spares
      GenUserCodeModifies from re-proving every part of Done in its heap. */
  lemma DoneStays(pm: ProcMap, s: State, t: State)
    requires Done(pm, s) && t == s
    ensures Done(pm, t)
  {
  }

  /** after is before with, when before is a procedure declaration with a
      body, the set of its component appended to its modifies list in
      ascending order. */
  ghost predicate Appended(before: Decl, after: Decl, mods: seq<set<string>>, scc: map<string, nat>) {
    if before.ProcDecl? && before.proc.blocks != [] then
      var p := before.proc;
      && after.ProcDecl? && after.proc.name == p.name && after.proc.blocks == p.blocks
      && |after.proc.modList| >= |p.modList| && after.proc.modList[..|p.modList|] == p.modList
      && Lookup(scc, p.name) < |mods|
      && StrictlySorted(after.proc.modList[|p.modList|..])
      && Elems(after.proc.modList[|p.modList|..]) == mods[Lookup(scc, p.name)]
    else
      after == before
  }
}
