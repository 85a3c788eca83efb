// Which names the modifies inference records for a statement: the memory
// globals among the variables it assigns, passes to a function on a
// right-hand side, receives from a call or passes to one. A name counts as a
// memory global when the unanchored search for `\$M.[[:digit:]]+` finds it,
// and the whole name is recorded, not just the matched part.
module Globals {
  import opened Ast

  predicate IsDigit(c: char) {
    '0' <= c <= '9'
  }

  predicate AllDigits(s: string) {
    forall k :: 0 <= k < |s| ==> IsDigit(s[k])
  }

  /** The pattern can start at position i: "$M", any one character, then a
      digit (one digit is all the search needs, since `+` may stop there). */
  predicate GlobalAt(s: string, i: nat) {
    i + 3 < |s| && s[i] == '$' && s[i + 1] == 'M' && IsDigit(s[i + 3])
  }

  /** The search from position i onwards. */
  function SearchFrom(s: string, i: nat): (found: bool)
    decreases |s| - i
  {
    if i + 3 >= |s| then false
    else GlobalAt(s, i) || SearchFrom(s, i + 1)
  }

  /** The search for the pattern anywhere in the name succeeds. */
  predicate IsGlobalVarName(s: string) {
    SearchFrom(s, 0)
  }

  lemma {:induction false} SearchFromSpec(s: string, i: nat)
    ensures SearchFrom(s, i) <==> exists k :: i <= k && GlobalAt(s, k)
    decreases |s| - i
  {
    if i + 3 < |s| {
      SearchFromSpec(s, i + 1);
      assert forall k :: i <= k && GlobalAt(s, k) ==> k == i || i + 1 <= k;
    }
  }

  /** The pattern matches exactly s[i..j]: "$M", any one character, then a
      non-empty run of digits. */
  predicate MatchSpan(s: string, i: nat, j: nat) {
    i + 3 < j <= |s| && s[i] == '$' && s[i + 1] == 'M' && AllDigits(s[i + 3..j])
  }

  /** The search succeeds exactly when some part of the name matches the
      pattern. */
  lemma GlobalVarNameIff(s: string)
    ensures IsGlobalVarName(s) <==> exists i, j :: MatchSpan(s, i, j)
  {
    SearchFromSpec(s, 0);
    if IsGlobalVarName(s) {
      var i :| 0 <= i && GlobalAt(s, i);
      assert MatchSpan(s, i, i + 4);
    }
    if exists i, j :: MatchSpan(s, i, j) {
      var i: nat, j: nat :| MatchSpan(s, i, j);
      assert s[i + 3..j][0] == s[i + 3];
      assert GlobalAt(s, i);
    }
  }

  /** The memory globals among the top-level variable references of a list
      of expressions (nested expressions are not looked into). */
  function ExprsEffects(es: seq<Expr>): (r: set<string>)
    ensures forall v :: v in r ==> IsGlobalVarName(v)
  {
    set i | 0 <= i < |es| && es[i].VarExpr? && IsGlobalVarName(es[i].name) :: es[i].name
  }

  /** The memory globals among the variable arguments of the function
      applications in a list of right-hand sides. */
  function FunArgsEffects(rhs: seq<Expr>): (r: set<string>)
    ensures forall v :: v in r ==> IsGlobalVarName(v)
  {
    set i, v | 0 <= i < |rhs| && rhs[i].FunExpr? && v in ExprsEffects(rhs[i].args) :: v
  }

  /** The memory globals among the names a call binds its results to. */
  function NamesEffects(names: seq<string>): (r: set<string>)
    ensures forall v :: v in r ==> IsGlobalVarName(v)
  {
    set i | 0 <= i < |names| && IsGlobalVarName(names[i]) :: names[i]
  }

  /** The memory globals a statement contributes: for an assignment, its
      variable left-hand sides and the variable arguments of its function
      application right-hand sides; for a call, the names its results are
      bound to and its variable arguments; nothing for any other statement. */
  function StmtEffects(s: Stmt): (r: set<string>)
    ensures forall v :: v in r ==> IsGlobalVarName(v)
  {
    match s
    case AssignStmt(lhs, rhs) => ExprsEffects(lhs) + FunArgsEffects(rhs)
    case CallStmt(_, params, rets) => NamesEffects(rets) + ExprsEffects(params)
    case OtherStmt => {}
  }

  // ---- one more element at a time, as the loops of the analysis go ----

  lemma ExprsEffectsSnoc(es: seq<Expr>, k: nat)
    requires k < |es|
    ensures ExprsEffects(es[..k + 1]) ==
      ExprsEffects(es[..k]) + if es[k].VarExpr? && IsGlobalVarName(es[k].name) then {es[k].name} else {}
  {
    var a := es[..k + 1];
    assert forall i :: 0 <= i < k ==> a[i] == es[..k][i];
  }

  lemma FunArgsEffectsSnoc(rhs: seq<Expr>, k: nat)
    requires k < |rhs|
    ensures FunArgsEffects(rhs[..k + 1]) ==
      FunArgsEffects(rhs[..k]) + if rhs[k].FunExpr? then ExprsEffects(rhs[k].args) else {}
  {
    var a := rhs[..k + 1];
    assert forall i :: 0 <= i < k ==> a[i] == rhs[..k][i];
    assert a[k] == rhs[k];
  }

  lemma NamesEffectsSnoc(names: seq<string>, k: nat)
    requires k < |names|
    ensures NamesEffects(names[..k + 1]) ==
      NamesEffects(names[..k]) + if IsGlobalVarName(names[k]) then {names[k]} else {}
  {
    var a := names[..k + 1];
    assert forall i :: 0 <= i < k ==> a[i] == names[..k][i];
  }
}
