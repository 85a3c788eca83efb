// The slice of the translated Boogie program that the modifies inference reads
// and writes: declarations, procedures with their blocks of statements, and the
// few expression shapes the analysis looks at.
module Ast {

  /** Expressions: only variable references and function applications matter;
      every other kind of expression is opaque. */
  datatype Expr =
    | VarExpr(name: string)
    | FunExpr(fn: string, args: seq<Expr>)
    | OtherExpr

  /** Statements: assignments (parallel, lhs := rhs), procedure calls with the
      names the results are bound to, and every other kind (opaque). */
  datatype Stmt =
    | AssignStmt(lhs: seq<Expr>, rhs: seq<Expr>)
    | CallStmt(callee: string, params: seq<Expr>, rets: seq<string>)
    | OtherStmt

  type Block = seq<Stmt>

  /** A procedure: its name, its body (no blocks for a declaration-only
      procedure) and its modifies list, which the inference appends to. */
  datatype Procedure = Procedure(name: string, blocks: seq<Block>, modList: seq<string>)

  /** Top-level declarations. A code declaration is raw Boogie text; its name is
      the text it was created from. */
  datatype Decl =
    | ProcDecl(proc: Procedure)
    | CodeDecl(name: string, code: string)
    | OtherDecl(name: string)

  /** The program: its declarations, in order, and the textual prelude. Both
      are rewritten in place by the modifies inference. */
  class Program {
    var decls: seq<Decl>
    var prelude: string

    constructor (decls: seq<Decl>, prelude: string)
      ensures this.decls == decls && this.prelude == prelude
    {
      this.decls := decls;
      this.prelude := prelude;
    }
  }

  /** Procedure names are unique among the procedure declarations (Boogie
      refuses two declarations of one procedure). */
  ghost predicate DistinctProcNames(decls: seq<Decl>) {
    forall i, j :: 0 <= i < j < |decls| && decls[i].ProcDecl? && decls[j].ProcDecl? ==>
      decls[i].proc.name != decls[j].proc.name
  }

  /** The name-to-procedure map that the analysis builds: each procedure
      declaration under its name, a later declaration of a name winning. */
  function ProcMapOf(decls: seq<Decl>): (pm: map<string, Procedure>)
    ensures forall n :: n in pm ==> pm[n].name == n
    ensures forall i :: 0 <= i < |decls| && decls[i].ProcDecl? ==> decls[i].proc.name in pm
  {
    if decls == [] then map[]
    else
      var pm := ProcMapOf(decls[..|decls| - 1]);
      var d := decls[|decls| - 1];
      assert forall i :: 0 <= i < |decls| - 1 ==> decls[..|decls| - 1][i] == decls[i];
      if d.ProcDecl? then pm[d.proc.name := d.proc] else pm
  }

  /** Every key of the map is the name of some procedure declaration, and with
      unique names each declaration is the one stored under its name. */
  lemma {:induction false} ProcMapOfDecls(decls: seq<Decl>)
    requires DistinctProcNames(decls)
    ensures forall n :: n in ProcMapOf(decls) ==>
      exists i :: 0 <= i < |decls| && decls[i].ProcDecl? && decls[i].proc.name == n
    ensures forall i :: 0 <= i < |decls| && decls[i].ProcDecl? ==>
      ProcMapOf(decls)[decls[i].proc.name] == decls[i].proc
  {
    if decls != [] {
      var init := decls[..|decls| - 1];
      assert forall i :: 0 <= i < |init| ==> init[i] == decls[i];
      ProcMapOfDecls(init);
      var pm := ProcMapOf(init);
      forall n | n in ProcMapOf(decls)
        ensures exists i :: 0 <= i < |decls| && decls[i].ProcDecl? && decls[i].proc.name == n
      {
        if n !in pm {
          assert decls[|decls| - 1].ProcDecl? && decls[|decls| - 1].proc.name == n;
        } else {
          var i :| 0 <= i < |init| && init[i].ProcDecl? && init[i].proc.name == n;
          assert decls[i] == init[i];
        }
      }
    }
  }

  /** With distinct names, every declared procedure is what the map holds
      under its name. */
  lemma DeclaredProcs(decls: seq<Decl>)
    requires DistinctProcNames(decls)
    ensures forall d :: d in decls && d.ProcDecl? ==>
      d.proc.name in ProcMapOf(decls) && ProcMapOf(decls)[d.proc.name] == d.proc
  {
    ProcMapOfDecls(decls);
    forall d | d in decls && d.ProcDecl?
      ensures d.proc.name in ProcMapOf(decls) && ProcMapOf(decls)[d.proc.name] == d.proc
    {
      var i :| 0 <= i < |decls| && decls[i] == d;
    }
  }

  /** The names called by a sequence of statements. */
  function StmtsCallees(ss: seq<Stmt>): set<string> {
    if ss == [] then {}
    else
      var last := ss[|ss| - 1];
      StmtsCallees(ss[..|ss| - 1]) + if last.CallStmt? then {last.callee} else {}
  }

  /** The names called anywhere in a sequence of blocks. */
  function BlocksCallees(bs: seq<Block>): set<string> {
    if bs == [] then {}
    else BlocksCallees(bs[..|bs| - 1]) + StmtsCallees(bs[|bs| - 1])
  }

  /** A name is a callee of a statement sequence exactly when some call
      statement in it names it. */
  lemma {:induction false} StmtsCalleesSpec(ss: seq<Stmt>, n: string)
    ensures n in StmtsCallees(ss) <==> exists i :: 0 <= i < |ss| && ss[i].CallStmt? && ss[i].callee == n
  {
    if ss != [] {
      var init := ss[..|ss| - 1];
      assert forall i :: 0 <= i < |init| ==> init[i] == ss[i];
      StmtsCalleesSpec(init, n);
    }
  }

  /** A name is a callee of a block sequence exactly when some call statement
      in one of its blocks names it. */
  lemma {:induction false} BlocksCalleesSpec(bs: seq<Block>, n: string)
    ensures n in BlocksCallees(bs) <==>
      exists i, j :: 0 <= i < |bs| && 0 <= j < |bs[i]| && bs[i][j].CallStmt? && bs[i][j].callee == n
  {
    if bs != [] {
      var init := bs[..|bs| - 1];
      assert forall i :: 0 <= i < |init| ==> init[i] == bs[i];
      BlocksCalleesSpec(init, n);
      StmtsCalleesSpec(bs[|bs| - 1], n);
    }
  }

  lemma StmtsCalleesSnoc(ss: seq<Stmt>, k: nat)
    requires k < |ss|
    ensures StmtsCallees(ss[..k + 1]) ==
      StmtsCallees(ss[..k]) + if ss[k].CallStmt? then {ss[k].callee} else {}
  {
    assert ss[..k + 1][..k] == ss[..k];
  }

  lemma BlocksCalleesSnoc(bs: seq<Block>, k: nat)
    requires k < |bs|
    ensures BlocksCallees(bs[..k + 1]) == BlocksCallees(bs[..k]) + StmtsCallees(bs[k])
  {
    assert bs[..k + 1][..k] == bs[..k];
  }
}
