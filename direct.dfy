// What each component touches directly: every procedure declaration adds the
// effects of all its statements to the set of the component the search gave
// it. Component slots are the entries of a vector of sets; a procedure whose
// component reads as 0 (none) adds to the reserved slot 0.
module Direct {
  import opened Ast
  import opened Globals
  import opened Tarjan

  /** The effects of a sequence of statements, in order. */
  function StmtsEffects(ss: seq<Stmt>): (r: set<string>)
    ensures forall v :: v in r ==> IsGlobalVarName(v)
  {
    if ss == [] then {} else StmtsEffects(ss[..|ss| - 1]) + StmtEffects(ss[|ss| - 1])
  }

  /** The effects of a procedure body, block after block. */
  function BodyEffects(bs: seq<Block>): (r: set<string>)
    ensures forall v :: v in r ==> IsGlobalVarName(v)
  {
    if bs == [] then {} else BodyEffects(bs[..|bs| - 1]) + StmtsEffects(bs[|bs| - 1])
  }

  /** A name is among a statement sequence's effects exactly when some
      statement of it contributes the name. */
  lemma {:induction false} StmtsEffectsSpec(ss: seq<Stmt>, v: string)
    ensures v in StmtsEffects(ss) <==> exists j :: 0 <= j < |ss| && v in StmtEffects(ss[j])
  {
    if ss != [] {
      var init := ss[..|ss| - 1];
      assert forall j :: 0 <= j < |init| ==> init[j] == ss[j];
      StmtsEffectsSpec(init, v);
    }
  }

  /** A name is among a body's effects exactly when some statement of some
      block contributes it. */
  lemma {:induction false} BodyEffectsSpec(bs: seq<Block>, v: string)
    ensures v in BodyEffects(bs) <==>
      exists i, j :: 0 <= i < |bs| && 0 <= j < |bs[i]| && v in StmtEffects(bs[i][j])
  {
    if bs != [] {
      var init := bs[..|bs| - 1];
      assert forall i :: 0 <= i < |init| ==> init[i] == bs[i];
      BodyEffectsSpec(init, v);
      StmtsEffectsSpec(bs[|bs| - 1], v);
    }
  }

  /** Every slot of the vector is still empty. */
  ghost predicate AllEmpty<T>(xs: seq<set<T>>) {
    forall c :: 0 <= c < |xs| ==> xs[c] == {}
  }

  /** Component c's set after adding the names es. */
  function AddTo(mods: seq<set<string>>, c: nat, es: set<string>): (r: seq<set<string>>)
    requires c < |mods|
    ensures |r| == |mods| && r[c] == mods[c] + es
    ensures forall d :: 0 <= d < |mods| && d != c ==> r[d] == mods[d]
  {
    mods[c := mods[c] + es]
  }

  /** Adding nothing changes nothing. */
  lemma AddToNothing(mods: seq<set<string>>, c: nat)
    requires c < |mods|
    ensures AddTo(mods, c, {}) == mods
  {
    assert mods[c] + {} == mods[c];
  }

  /** Two additions to one component are one addition of both. */
  lemma AddToTwice(mods: seq<set<string>>, c: nat, a: set<string>, b: set<string>)
    requires c < |mods|
    ensures AddTo(AddTo(mods, c, a), c, b) == AddTo(mods, c, a + b)
  {
    assert AddTo(mods, c, a)[c] + b == mods[c] + (a + b);
  }

  /** Every procedure declaration's component is a slot of the vector. */
  predicate SlotsFit(mods: seq<set<string>>, scc: map<string, nat>, decls: seq<Decl>) {
    forall i :: 0 <= i < |decls| && decls[i].ProcDecl? ==> Lookup(scc, decls[i].proc.name) < |mods|
  }

  /** The sets after adding, declaration by declaration, each procedure's
      effects to its component. */
  function DirectMods(mods: seq<set<string>>, scc: map<string, nat>, decls: seq<Decl>): (r: seq<set<string>>)
    requires SlotsFit(mods, scc, decls)
    ensures |r| == |mods|
  {
    if decls == [] then mods
    else
      var init := decls[..|decls| - 1];
      assert forall i :: 0 <= i < |init| ==> init[i] == decls[i];
      var m := DirectMods(mods, scc, init);
      var d := decls[|decls| - 1];
      if d.ProcDecl? then AddTo(m, Lookup(scc, d.proc.name), BodyEffects(d.proc.blocks)) else m
  }

  /** Component c ends up with its own earlier names and the effects of every
      procedure declaration in it, and with nothing else. */
  lemma {:induction false} DirectModsSpec(mods: seq<set<string>>, scc: map<string, nat>, decls: seq<Decl>, c: nat, v: string)
    requires SlotsFit(mods, scc, decls) && c < |mods|
    ensures v in DirectMods(mods, scc, decls)[c] <==>
      v in mods[c] ||
      exists i :: 0 <= i < |decls| && decls[i].ProcDecl? && Lookup(scc, decls[i].proc.name) == c
                  && v in BodyEffects(decls[i].proc.blocks)
  {
    if decls != [] {
      var init := decls[..|decls| - 1];
      assert forall i :: 0 <= i < |init| ==> init[i] == decls[i];
      DirectModsSpec(mods, scc, init, c, v);
    }
  }
}
