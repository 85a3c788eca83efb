// Tarjan's strongly connected components algorithm as the modifies inference
// runs it, stated over a value snapshot of its state: the explicit stack, the
// on-stack flags, the discovery index and low-link of each visited procedure,
// the component of each procedure whose component is complete, the next free
// index and the number of component slots (slot 0 is reserved and means
// "absent"). The class in gen_modifies.dfy keeps these in fields; the
// invariant and the lemmas that each step of the search preserves it live here.
module Tarjan {
  import opened Ast
  import opened CallGraph

  /** Reading a std::map with operator[]: an absent key reads as 0. */
  function Lookup(m: map<string, nat>, k: string): (r: nat)
    ensures k in m ==> r == m[k]
    ensures k !in m ==> r == 0
  {
    if k in m then m[k] else 0
  }

  /** Reading a std::map<string, bool> with operator[]: absent reads as false. */
  function LookupFlag(m: map<string, bool>, k: string): (r: bool)
    ensures r <==> k in m && m[k]
  {
    k in m && m[k]
  }

  datatype State = State(
    st: seq<string>,
    onStack: map<string, bool>,
    index: map<string, nat>,
    low: map<string, nat>,
    scc: map<string, nat>,
    maxIndex: nat,
    numSccs: nat)

  /** The flags after every name in seg has been marked off the stack. */
  function MarkOff(m: map<string, bool>, seg: seq<string>): (r: map<string, bool>)
    ensures r.Keys == m.Keys + set x | x in seg
    ensures forall v :: v in seg ==> !r[v]
    ensures forall v :: v in m && v !in seg ==> r[v] == m[v]
  {
    map v | v in m.Keys + (set x | x in seg) :: if v in seg then false else m[v]
  }

  /** The component map after every name in seg has been given component c. */
  function AssignScc(m: map<string, nat>, seg: seq<string>, c: nat): (r: map<string, nat>)
    ensures r.Keys == m.Keys + set x | x in seg
    ensures forall v :: v in seg ==> r[v] == c
    ensures forall v :: v in m && v !in seg ==> r[v] == m[v]
  {
    map v | v in m.Keys + (set x | x in seg) :: if v in seg then c else m[v]
  }

  /** Entering a procedure: push it, flag it, give it the next index as both
      its index and its low-link. */
  function Push(s: State, p: string): State {
    s.(st := s.st + [p],
       onStack := s.onStack[p := true],
       index := s.index[p := s.maxIndex],
       low := s.low[p := s.maxIndex],
       maxIndex := s.maxIndex + 1)
  }

  /** Completing a component rooted at stack position k: everything from k up
      is popped, flagged off and given the next component number. */
  function Pop(s: State, k: nat): State
    requires k <= |s.st|
  {
    s.(st := s.st[..k],
       onStack := MarkOff(s.onStack, s.st[k..]),
       scc := AssignScc(s.scc, s.st[k..], s.numSccs),
       numSccs := s.numSccs + 1)
  }

  /** Marking off one more entry below a popped segment. */
  lemma MarkOffCons(m: map<string, bool>, x: string, seg: seq<string>)
    ensures MarkOff(m, [x] + seg) == MarkOff(m, seg)[x := false]
  {
    var a := MarkOff(m, [x] + seg);
    var b := MarkOff(m, seg)[x := false];
    assert forall v :: v in [x] + seg <==> v == x || v in seg;
    assert a.Keys == b.Keys;
    forall v | v in a
      ensures a[v] == b[v]
    {
    }
  }

  /** Assigning the component to one more entry below a popped segment. */
  lemma AssignSccCons(m: map<string, nat>, x: string, seg: seq<string>, c: nat)
    ensures AssignScc(m, [x] + seg, c) == AssignScc(m, seg, c)[x := c]
  {
    var a := AssignScc(m, [x] + seg, c);
    var b := AssignScc(m, seg, c)[x := c];
    assert forall v :: v in [x] + seg <==> v == x || v in seg;
    assert a.Keys == b.Keys;
    forall v | v in a
      ensures a[v] == b[v]
    {
    }
  }

  /** Popping one more entry, the one just below position m. */
  lemma PopOne(s: State, m: nat, c: nat)
    requires 0 < m <= |s.st|
    ensures MarkOff(s.onStack, s.st[m..])[s.st[m - 1] := false] == MarkOff(s.onStack, s.st[m - 1..])
    ensures AssignScc(s.scc, s.st[m..], c)[s.st[m - 1] := c] == AssignScc(s.scc, s.st[m - 1..], c)
  {
    assert s.st[m - 1..] == [s.st[m - 1]] + s.st[m..];
    MarkOffCons(s.onStack, s.st[m - 1], s.st[m..]);
    AssignSccCons(s.scc, s.st[m - 1], s.st[m..], c);
  }

  function Min(a: nat, b: nat): nat {
    if a <= b then a else b
  }

  /** What a finished procedure v knows about a callee q: q has been visited,
      and either both have complete components with q's no later than v's, or
      v is still on the stack and q is complete or on the stack with an index
      no smaller than v's low-link. */
  ghost predicate EdgeSettled(s: State, v: string, q: string)
    requires v in s.index && v in s.low
  {
    && q in s.index
    && (v in s.scc ==> q in s.scc && s.scc[q] <= s.scc[v])
    && (v !in s.scc ==> q in s.scc || (q in s.st && s.low[v] <= s.index[q]))
  }

  /** The low-link of stack entry i is the index of an entry at or below it
      that it reaches. */
  ghost predicate LowWitnessed(pm: ProcMap, s: State, i: int) {
    && 0 <= i < |s.st| && s.st[i] in s.low
    && exists j :: 0 <= j <= i && s.st[j] in s.index && s.index[s.st[j]] == s.low[s.st[i]]
                   && Reaches(pm, s.st[i], s.st[j])
  }

  /** Indices and low-links: every visited procedure is declared, has both,
      numbered from 1 below the next free index, with 1 <= low <= index. */
  ghost predicate Numbering(pm: ProcMap, s: State) {
    && s.maxIndex >= 1 && s.numSccs >= 1
    && s.index.Keys <= pm.Keys
    && s.low.Keys == s.index.Keys
    && (forall v :: v in s.index ==> 1 <= s.index[v] < s.maxIndex)
    && (forall v :: v in s.index ==> 1 <= s.low[v] <= s.index[v])
  }

  /** The stack holds visited procedures with indices strictly increasing
      upwards (so without repeats), and the flags say exactly what is on it. */
  ghost predicate StackShape(st: seq<string>, onStack: map<string, bool>, index: map<string, nat>) {
    && (forall i :: 0 <= i < |st| ==> st[i] in index)
    && (forall i, j :: 0 <= i < j < |st| ==> index[st[i]] < index[st[j]])
    && (forall v :: LookupFlag(onStack, v) <==> v in st)
  }

  /** A visited procedure has a component exactly when it is off the stack,
      and components are numbered from 1 below the next free slot. */
  ghost predicate SccShape(scc: map<string, nat>, index: map<string, nat>, st: seq<string>, numSccs: nat) {
    && (forall v :: v in scc <==> v in index && v !in st)
    && (forall v :: v in scc ==> 1 <= scc[v] < numSccs)
  }

  ghost predicate GrayOnStack(st: seq<string>, gray: set<string>) {
    forall g :: g in gray ==> g in st
  }

  /** Every call of a finished procedure is settled. */
  ghost predicate EdgesSettled(pm: ProcMap, s: State, gray: set<string>) {
    forall v, q :: v in s.index && v in s.low && v !in gray && Edge(pm, v, q) ==> EdgeSettled(s, v, q)
  }

  ghost predicate LowsWitnessed(pm: ProcMap, s: State) {
    forall i :: 0 <= i < |s.st| ==> LowWitnessed(pm, s, i)
  }

  /** A finished procedure still on the stack is not the root of its
      component. */
  ghost predicate FinishedNotRoots(s: State, gray: set<string>) {
    forall v :: v in s.st && v !in gray && v in s.index && v in s.low ==> s.low[v] < s.index[v]
  }

  /** Procedures given one component reach each other. */
  ghost predicate SccsConnected(pm: ProcMap, scc: map<string, nat>) {
    forall u, v {:trigger Reaches(pm, u, v)} ::
      u in scc && v in scc && scc[u] == scc[v] ==> Reaches(pm, u, v)
  }

  /** The invariant of the search. gray holds the procedures whose visit is
      still in progress (the recursion's call chain); every other visited
      procedure is finished. */
  ghost predicate Inv(pm: ProcMap, s: State, gray: set<string>) {
    && Numbering(pm, s)
    && StackShape(s.st, s.onStack, s.index)
    && SccShape(s.scc, s.index, s.st, s.numSccs)
    && GrayOnStack(s.st, gray)
    && EdgesSettled(pm, s, gray)
    && LowsWitnessed(pm, s)
    && FinishedNotRoots(s, gray)
    && SccsConnected(pm, s.scc)
  }

  /** The state before the search: nothing visited, one reserved slot. */
  function Initial(): State {
    State([], map[], map[], map[], map[], 1, 1)
  }

  lemma InitialInv(pm: ProcMap)
    ensures Inv(pm, Initial(), {})
  {
  }

  /** s extends s0: what was visited keeps its index and low-link, what was
      complete keeps its component, and what is new is numbered after it. */
  ghost predicate Extends(s0: State, s: State) {
    && s0.maxIndex <= s.maxIndex && s0.numSccs <= s.numSccs
    && (forall v :: v in s0.index ==> v in s.index && s.index[v] == s0.index[v])
    && (forall v :: v in s0.low ==> v in s.low && s.low[v] == s0.low[v])
    && (forall v :: v in s0.scc ==> v in s.scc && s.scc[v] == s0.scc[v])
    && (forall v :: v in s.index && v !in s0.index ==> s.index[v] >= s0.maxIndex)
    && (forall v :: v in s.scc && v !in s0.scc ==> v !in s0.index && s.scc[v] >= s0.numSccs)
  }

  lemma ExtendsTrans(s0: State, s1: State, s2: State)
    requires Extends(s0, s1) && Extends(s1, s2)
    ensures Extends(s0, s2)
  {
    forall v | v in s2.scc && v !in s0.scc
      ensures v !in s0.index && s2.scc[v] >= s0.numSccs
    {
      if v !in s1.scc {
        assert v !in s1.index;
      }
    }
  }

  /** Everything visited since s0 was numbered is reachable from p. */
  ghost predicate NewReachable(pm: ProcMap, from: nat, index: map<string, nat>, p: string) {
    forall v :: v in index && index[v] >= from ==> Reaches(pm, p, v)
  }

  /** What a visit of p promises its caller, s0 being the state it started in:
      either p completed its component and the stack is back as it was, or p
      stays on the stack just above the old stack, as a non-root, with nothing
      above it of a smaller low-link. */
  ghost predicate DfsPost(pm: ProcMap, s0: State, s: State, gray: set<string>, p: string) {
    && Inv(pm, s, gray)
    && p in s.index && s.index[p] == s0.maxIndex
    && Extends(s0, s)
    && NewReachable(pm, s0.maxIndex, s.index, p)
    && |s.st| >= |s0.st| && s.st[..|s0.st|] == s0.st
    && (p in s.scc ==> s.st == s0.st && s.low[p] == s.index[p])
    && (p !in s.scc ==>
          && |s.st| > |s0.st| && s.st[|s0.st|] == p && s.low[p] < s.index[p]
          && forall i :: |s0.st| <= i < |s.st| ==> s.low[s.st[i]] >= s.low[p])
  }

  /** p was entered in s0 and sits on the stack just above s0's stack. */
  ghost predicate Entered(pm: ProcMap, s0: State, s: State, gray: set<string>, p: string) {
    && Numbering(pm, s0)
    && p in pm && p !in s0.index
    && (forall g :: g in gray ==> g in s0.index)
    && |s0.st| < |s.st| && s.st[..|s0.st|] == s0.st && s.st[|s0.st|] == p
    && p in s.index && s.index[p] == s0.maxIndex && s0.maxIndex < s.maxIndex
    && Extends(s0, s)
  }

  /** Nothing from p up the stack has a low-link below p's. */
  ghost predicate SegmentLowAbove(s0: State, s: State, p: string) {
    && p in s.low
    && forall i :: |s0.st| <= i < |s.st| ==> s.st[i] in s.low && s.low[s.st[i]] >= s.low[p]
  }

  /** Every callee looked at is visited, and complete or on the stack at an
      index no smaller than p's low-link. */
  ghost predicate CalleesSettled(pm: ProcMap, s: State, p: string, done: set<string>) {
    && p in s.low
    && forall q :: q in done && q in pm ==>
         q in s.index && (q in s.scc || (q in s.st && s.low[p] <= s.index[q]))
  }

  /** The invariant of the loop over p's calls, done being the callees
      already looked at. */
  ghost predicate LoopInv(pm: ProcMap, s0: State, s: State, gray: set<string>, p: string, done: set<string>) {
    && Inv(pm, s, gray + {p})
    && Entered(pm, s0, s, gray, p)
    && SegmentLowAbove(s0, s, p)
    && NewReachable(pm, s0.maxIndex, s.index, p)
    && CalleesSettled(pm, s, p, done)
  }

  // ---- positions on the stack ----

  lemma StackPositions(s: State, i: nat, j: nat)
    requires StackShape(s.st, s.onStack, s.index)
    requires i < |s.st| && j < |s.st|
    ensures s.index[s.st[i]] < s.index[s.st[j]] <==> i < j
    ensures s.st[i] == s.st[j] <==> i == j
  {
  }

  /** A stack entry lies at or above position k exactly when its index is at
      least that of the entry at k. */
  lemma SegmentByIndex(s: State, k: nat, v: string)
    requires StackShape(s.st, s.onStack, s.index)
    requires k < |s.st| && v in s.st
    ensures v in s.st[k..] <==> s.index[v] >= s.index[s.st[k]]
    ensures v in s.st[..k] <==> s.index[v] < s.index[s.st[k]]
  {
    var i :| 0 <= i < |s.st| && s.st[i] == v;
    StackPositions(s, i, k);
    if i >= k {
      assert s.st[k..][i - k] == v;
      forall j | 0 <= j < k
        ensures s.st[..k][j] != v
      {
        StackPositions(s, i, j);
      }
    } else {
      assert s.st[..k][i] == v;
      forall j | 0 <= j < |s.st| - k
        ensures s.st[k..][j] != v
      {
        StackPositions(s, i, k + j);
      }
    }
  }

  /** A low-link witness survives any change that keeps the stack up to it,
      its low-link and the indices of what was visited. */
  lemma WitnessKept(pm: ProcMap, s: State, s': State, i: nat)
    requires LowWitnessed(pm, s, i)
    requires i < |s'.st| && s'.st[..i + 1] == s.st[..i + 1]
    requires s.st[i] in s'.low && s'.low[s.st[i]] == s.low[s.st[i]]
    requires forall v :: v in s.index ==> v in s'.index && s'.index[v] == s.index[v]
    ensures LowWitnessed(pm, s', i)
  {
    var j :| 0 <= j <= i && s.st[j] in s.index && s.index[s.st[j]] == s.low[s.st[i]]
             && Reaches(pm, s.st[i], s.st[j]);
    assert s'.st[j] == s'.st[..i + 1][j] == s.st[j];
    assert s'.st[i] == s'.st[..i + 1][i] == s.st[i];
  }

  // ---- entering a procedure ----

  lemma PushNumbering(pm: ProcMap, s: State, p: string)
    requires Numbering(pm, s) && p in pm && p !in s.index
    ensures Numbering(pm, Push(s, p))
  {
  }

  lemma PushStack(pm: ProcMap, s: State, p: string)
    requires Numbering(pm, s) && StackShape(s.st, s.onStack, s.index)
    requires p !in s.index
    ensures StackShape(Push(s, p).st, Push(s, p).onStack, Push(s, p).index)
  {
    var s' := Push(s, p);
    forall i, j | 0 <= i < j < |s'.st|
      ensures s'.index[s'.st[i]] < s'.index[s'.st[j]]
    {
      if j == |s.st| {
        assert s'.st[i] == s.st[i];
      } else {
        assert s'.st[i] == s.st[i] && s'.st[j] == s.st[j];
      }
    }
  }

  lemma PushScc(pm: ProcMap, s: State, p: string)
    requires SccShape(s.scc, s.index, s.st, s.numSccs) && StackShape(s.st, s.onStack, s.index)
    requires p !in s.index
    ensures SccShape(Push(s, p).scc, Push(s, p).index, Push(s, p).st, Push(s, p).numSccs)
  {
  }

  lemma PushShape(pm: ProcMap, s: State, p: string)
    requires Numbering(pm, s) && StackShape(s.st, s.onStack, s.index)
    requires SccShape(s.scc, s.index, s.st, s.numSccs)
    requires p in pm && p !in s.index
    ensures Numbering(pm, Push(s, p))
    ensures StackShape(Push(s, p).st, Push(s, p).onStack, Push(s, p).index)
    ensures SccShape(Push(s, p).scc, Push(s, p).index, Push(s, p).st, Push(s, p).numSccs)
  {
    PushNumbering(pm, s, p);
    PushStack(pm, s, p);
    PushScc(pm, s, p);
  }

  lemma PushEdges(pm: ProcMap, s: State, gray: set<string>, p: string)
    requires Numbering(pm, s) && EdgesSettled(pm, s, gray)
    requires p !in s.index
    ensures EdgesSettled(pm, Push(s, p), gray + {p})
  {
    var s' := Push(s, p);
    forall v, q | v in s'.index && v in s'.low && v !in gray + {p} && Edge(pm, v, q)
      ensures EdgeSettled(s', v, q)
    {
      assert EdgeSettled(s, v, q);
    }
  }

  lemma PushLows(pm: ProcMap, s: State, p: string)
    requires Numbering(pm, s) && StackShape(s.st, s.onStack, s.index) && LowsWitnessed(pm, s)
    requires p in pm && p !in s.index
    ensures LowsWitnessed(pm, Push(s, p))
  {
    var s' := Push(s, p);
    forall i | 0 <= i < |s'.st|
      ensures LowWitnessed(pm, s', i)
    {
      if i == |s.st| {
        ReachesRefl(pm, p);
        assert s'.st[i] == p;
        assert s'.index[s'.st[i]] == s'.low[s'.st[i]];
      } else {
        assert LowWitnessed(pm, s, i);
        assert s'.st[..i + 1] == s.st[..i + 1];
        WitnessKept(pm, s, s', i);
      }
    }
  }

  lemma PushFinished(pm: ProcMap, s: State, gray: set<string>, p: string)
    requires FinishedNotRoots(s, gray) && GrayOnStack(s.st, gray)
    ensures FinishedNotRoots(Push(s, p), gray + {p}) && GrayOnStack(Push(s, p).st, gray + {p})
  {
  }

  /** Entering p keeps the invariant, with p in progress. */
  lemma PushInv(pm: ProcMap, s: State, gray: set<string>, p: string)
    requires Inv(pm, s, gray)
    requires p in pm && p !in s.index
    ensures LoopInv(pm, s, Push(s, p), gray, p, {})
  {
    var s' := Push(s, p);
    PushShape(pm, s, p);
    PushEdges(pm, s, gray, p);
    PushLows(pm, s, p);
    PushFinished(pm, s, gray, p);
    PushEntered(pm, s, gray, p);
    PushReach(pm, s, p);
  }

  lemma PushExtends(s: State, p: string)
    requires p !in s.index && p !in s.low
    ensures Extends(s, Push(s, p))
  {
  }

  lemma PushEntered(pm: ProcMap, s: State, gray: set<string>, p: string)
    requires Numbering(pm, s) && StackShape(s.st, s.onStack, s.index) && GrayOnStack(s.st, gray)
    requires p in pm && p !in s.index
    ensures Entered(pm, s, Push(s, p), gray, p)
    ensures SegmentLowAbove(s, Push(s, p), p)
  {
    PushExtends(s, p);
    assert Push(s, p).st[..|s.st|] == s.st;
  }

  lemma PushReach(pm: ProcMap, s: State, p: string)
    requires Numbering(pm, s) && p in pm && p !in s.index
    ensures NewReachable(pm, s.maxIndex, Push(s, p).index, p)
  {
    ReachesRefl(pm, p);
  }

  // ---- lowering the low-link of a procedure in progress ----

  /** Lowering the low-link of an in-progress procedure p at stack position k
      keeps the parts of the invariant that read low-links, given a witness
      for the new value. */
  lemma LowerLow(pm: ProcMap, s: State, gray: set<string>, p: string, l: nat, k: nat)
    requires Numbering(pm, s) && StackShape(s.st, s.onStack, s.index)
    requires EdgesSettled(pm, s, gray) && LowsWitnessed(pm, s) && FinishedNotRoots(s, gray)
    requires p in gray && p in s.index && 1 <= l <= s.low[p]
    requires k < |s.st| && s.st[k] == p
    requires LowWitnessed(pm, s.(low := s.low[p := l]), k)
    ensures Numbering(pm, s.(low := s.low[p := l]))
    ensures EdgesSettled(pm, s.(low := s.low[p := l]), gray)
    ensures LowsWitnessed(pm, s.(low := s.low[p := l]))
    ensures FinishedNotRoots(s.(low := s.low[p := l]), gray)
  {
    var s' := s.(low := s.low[p := l]);
    forall v, q | v in s'.index && v in s'.low && v !in gray && Edge(pm, v, q)
      ensures EdgeSettled(s', v, q)
    {
      assert EdgeSettled(s, v, q);
    }
    forall i | 0 <= i < |s'.st|
      ensures LowWitnessed(pm, s', i)
    {
      if i != k {
        StackPositions(s, i, k);
        assert LowWitnessed(pm, s, i);
        WitnessKept(pm, s, s', i);
      }
    }
  }

  lemma LowerLowInv(pm: ProcMap, s: State, gray: set<string>, p: string, l: nat, k: nat)
    requires Inv(pm, s, gray)
    requires p in gray && p in s.index && 1 <= l <= s.low[p]
    requires k < |s.st| && s.st[k] == p
    requires LowWitnessed(pm, s.(low := s.low[p := l]), k)
    ensures Inv(pm, s.(low := s.low[p := l]), gray)
  {
    LowerLow(pm, s, gray, p, l, k);
  }

  /** Lowering p's low-link keeps p entered and the callees settled. */
  lemma LowerLowEntered(pm: ProcMap, s0: State, s: State, gray: set<string>, p: string, done: set<string>, l: nat)
    requires Entered(pm, s0, s, gray, p) && CalleesSettled(pm, s, p, done)
    requires l <= s.low[p]
    ensures Entered(pm, s0, s.(low := s.low[p := l]), gray, p)
    ensures CalleesSettled(pm, s.(low := s.low[p := l]), p, done)
  {
  }

  /** Lowering p's low-link keeps p entered, its segment's bound and the
      callees settled. */
  lemma LowerLowLoop(pm: ProcMap, s0: State, s: State, gray: set<string>, p: string, done: set<string>, l: nat)
    requires StackShape(s.st, s.onStack, s.index)
    requires Entered(pm, s0, s, gray, p)
    requires SegmentLowAbove(s0, s, p) && CalleesSettled(pm, s, p, done)
    requires 1 <= l <= s.low[p]
    ensures Entered(pm, s0, s.(low := s.low[p := l]), gray, p)
    ensures SegmentLowAbove(s0, s.(low := s.low[p := l]), p)
    ensures CalleesSettled(pm, s.(low := s.low[p := l]), p, done)
  {
    LowerLowEntered(pm, s0, s, gray, p, done, l);
    LowerLowSegment(s0, s, p, l);
  }

  /** A callee that is undeclared, or visited and already complete, needs no
      further work. */
  lemma SkipCallee(pm: ProcMap, s0: State, s: State, gray: set<string>, p: string, done: set<string>, q: string)
    requires LoopInv(pm, s0, s, gray, p, done)
    requires q !in pm || (q in s.index && q !in s.st)
    ensures LoopInv(pm, s0, s, gray, p, done + {q})
  {
    assert CalleesSettled(pm, s, p, done + {q});
  }

  /** A callee on the stack lowers p's low-link to the callee's index. */
  lemma BackEdge(pm: ProcMap, s0: State, s: State, gray: set<string>, p: string, done: set<string>, q: string)
    requires LoopInv(pm, s0, s, gray, p, done)
    requires Edge(pm, p, q) && q in s.index && q in s.st
    ensures LoopInv(pm, s0, s.(low := s.low[p := Min(s.low[p], s.index[q])]), gray, p, done + {q})
  {
    var l := Min(s.low[p], s.index[q]);
    var s' := s.(low := s.low[p := l]);
    var k := |s0.st|;
    assert LowWitnessed(pm, s, k);
    if s.index[q] < s.low[p] {
      var jq :| 0 <= jq < |s.st| && s.st[jq] == q;
      StackPositions(s, jq, k);
      ReachesEdge(pm, p, q);
      assert s'.st == s.st;
      assert s'.low[p] == s.index[q];
    } else {
      WitnessKept(pm, s, s', k);
    }
    LowerLowInv(pm, s, gray + {p}, p, l, k);
    LowerLowLoop(pm, s0, s, gray, p, done, l);
    CalleeOnStack(pm, s', p, done, q);
  }

  lemma CalleeOnStack(pm: ProcMap, s: State, p: string, done: set<string>, q: string)
    requires CalleesSettled(pm, s, p, done)
    requires q in s.index && q in s.st && s.low[p] <= s.index[q]
    ensures CalleesSettled(pm, s, p, done + {q})
  {
  }

  lemma CalleeComplete(pm: ProcMap, s: State, p: string, done: set<string>, q: string)
    requires CalleesSettled(pm, s, p, done)
    requires q in s.index && q in s.scc
    ensures CalleesSettled(pm, s, p, done + {q})
  {
  }

  // ---- a callee's visit returned ----

  /** The witness for p's new low-link after its callee q returned. */
  lemma ChildReturnedWitness(pm: ProcMap, sA: State, p: string, q: string, k: nat, kB: nat)
    requires Numbering(pm, sA) && StackShape(sA.st, sA.onStack, sA.index) && LowsWitnessed(pm, sA)
    requires k < |sA.st| && sA.st[k] == p && Edge(pm, p, q) && q in sA.index
    requires sA.index[p] < sA.index[q]
    requires q in sA.scc ==> sA.low[q] == sA.index[q]
    requires q !in sA.scc ==> k < kB < |sA.st| && sA.st[kB] == q
    ensures LowWitnessed(pm, sA.(low := sA.low[p := Min(sA.low[p], sA.low[q])]), k)
  {
    var s' := sA.(low := sA.low[p := Min(sA.low[p], sA.low[q])]);
    if sA.low[q] < sA.low[p] {
      assert LowWitnessed(pm, sA, kB);
      var j :| 0 <= j <= kB && sA.st[j] in sA.index && sA.index[sA.st[j]] == sA.low[sA.st[kB]]
               && Reaches(pm, sA.st[kB], sA.st[j]);
      StackPositions(sA, j, k);
      ReachesEdgeThen(pm, p, q, sA.st[j]);
      assert s'.st[j] == sA.st[j];
    } else {
      assert LowWitnessed(pm, sA, k);
      WitnessKept(pm, sA, s', k);
    }
  }

  /** The facts about p that the visit of q carried over from sB to sA. */
  lemma ChildReturnedCarry(pm: ProcMap, s0: State, sB: State, sA: State, gray: set<string>, p: string,
                           done: set<string>, q: string)
    requires StackShape(sA.st, sA.onStack, sA.index)
    requires Entered(pm, s0, sB, gray, p) && SegmentLowAbove(s0, sB, p) && CalleesSettled(pm, sB, p, done)
    requires Extends(sB, sA) && |sA.st| >= |sB.st| && sA.st[..|sB.st|] == sB.st
    ensures Entered(pm, s0, sA, gray, p)
    ensures SegmentLowAbove(s0, sA.(st := sA.st[..|sB.st|]), p)
    ensures CalleesSettled(pm, sA, p, done)
  {
    var k := |s0.st|;
    var kB := |sB.st|;
    ExtendsTrans(s0, sB, sA);
    assert sA.st[..k] == sA.st[..kB][..k];
    assert sA.st[k] == sA.st[..kB][k];
    forall i | k <= i < kB
      ensures sA.st[..kB][i] in sA.low && sA.low[sA.st[..kB][i]] >= sA.low[p]
    {
    }
    forall q' | q' in done && q' in pm && q' !in sA.scc
      ensures q' in sA.st && sA.low[p] <= sA.index[q']
    {
      var jq :| 0 <= jq < kB && sB.st[jq] == q';
      assert sA.st[jq] == sA.st[..kB][jq];
    }
  }

  /** p's segment keeps its bound once p takes the minimum with q's low-link. */
  lemma ChildReturnedSegment(s0: State, sA: State, p: string, q: string, kB: nat)
    requires StackShape(sA.st, sA.onStack, sA.index)
    requires |s0.st| < kB <= |sA.st| && sA.st[|s0.st|] == p
    requires SegmentLowAbove(s0, sA.(st := sA.st[..kB]), p)
    requires q in sA.low
    requires forall i :: kB <= i < |sA.st| ==> sA.st[i] in sA.low && sA.low[sA.st[i]] >= sA.low[q]
    ensures SegmentLowAbove(s0, sA.(low := sA.low[p := Min(sA.low[p], sA.low[q])]), p)
  {
    var k := |s0.st|;
    forall i | k <= i < |sA.st|
      ensures sA.st[i] in sA.low && sA.low[sA.st[i]] >= Min(sA.low[p], sA.low[q])
    {
      if i < kB {
        assert sA.st[..kB][i] == sA.st[i];
      }
    }
    LowerLowSegment(s0, sA, p, Min(sA.low[p], sA.low[q]));
  }

  lemma LowerLowSegment(s0: State, s: State, p: string, l: nat)
    requires StackShape(s.st, s.onStack, s.index)
    requires |s0.st| < |s.st| && s.st[|s0.st|] == p && p in s.low
    requires forall i :: |s0.st| <= i < |s.st| ==> s.st[i] in s.low && s.low[s.st[i]] >= l
    ensures SegmentLowAbove(s0, s.(low := s.low[p := l]), p)
  {
    forall i | |s0.st| <= i < |s.st|
      ensures s.st[i] in s.low && s.low[p := l][s.st[i]] >= l
    {
    }
  }

  /** After a visit of callee q returns (in state sA), p takes the minimum of
      its low-link and q's. */
  lemma ChildReturned(pm: ProcMap, s0: State, sB: State, sA: State, gray: set<string>, p: string,
                      done: set<string>, q: string)
    requires Entered(pm, s0, sB, gray, p) && SegmentLowAbove(s0, sB, p)
    requires NewReachable(pm, s0.maxIndex, sB.index, p) && CalleesSettled(pm, sB, p, done)
    requires Edge(pm, p, q) && q !in sB.index
    requires DfsPost(pm, sB, sA, gray + {p}, q)
    ensures p in sA.low && q in sA.low
    ensures LoopInv(pm, s0, sA.(low := sA.low[p := Min(sA.low[p], sA.low[q])]), gray, p, done + {q})
  {
    var l := Min(sA.low[p], sA.low[q]);
    var s' := sA.(low := sA.low[p := l]);
    var k := |s0.st|;
    var kB := |sB.st|;
    ChildReturnedCarry(pm, s0, sB, sA, gray, p, done, q);
    ChildReturnedInv(pm, s0, sB, sA, gray, p, q);
    ChildReturnedSegment(s0, sA, p, q, kB);
    LowerLowEntered(pm, s0, sA, gray, p, done, l);
    if q in sA.scc {
      CalleeComplete(pm, s', p, done, q);
    } else {
      assert sA.st[kB] == q;
      assert sA.low[q] <= sA.index[q];
      CalleeOnStack(pm, s', p, done, q);
    }
    ChildReturnedReach(pm, s0.maxIndex, sB, sA, p, q);
  }

  /** The invariant survives p taking the minimum with q's low-link. */
  lemma ChildReturnedInv(pm: ProcMap, s0: State, sB: State, sA: State, gray: set<string>, p: string, q: string)
    requires Entered(pm, s0, sB, gray, p)
    requires Edge(pm, p, q) && q !in sB.index
    requires DfsPost(pm, sB, sA, gray + {p}, q)
    ensures p in sA.low && q in sA.low
    ensures Inv(pm, sA.(low := sA.low[p := Min(sA.low[p], sA.low[q])]), gray + {p})
  {
    var k := |s0.st|;
    var kB := |sB.st|;
    assert sA.st[k] == sA.st[..kB][k];
    assert sA.index[p] < sA.index[q];
    ChildReturnedWitness(pm, sA, p, q, k, kB);
    LowerLowInv(pm, sA, gray + {p}, p, Min(sA.low[p], sA.low[q]), k);
  }

  /** What q's visit numbered, p reaches through q. */
  lemma ChildReturnedReach(pm: ProcMap, from: nat, sB: State, sA: State, p: string, q: string)
    requires NewReachable(pm, from, sB.index, p) && Edge(pm, p, q)
    requires NewReachable(pm, sB.maxIndex, sA.index, q) && Extends(sB, sA)
    ensures NewReachable(pm, from, sA.index, p)
  {
    forall v | v in sA.index && sA.index[v] >= from
      ensures Reaches(pm, p, v)
    {
      if v !in sB.index {
        ReachesEdgeThen(pm, p, q, v);
      }
    }
  }

  // ---- completing a component ----

  /** With the entry at k its own root, every entry above k reaches it. */
  lemma {:induction false} SegmentReachesRoot(pm: ProcMap, s: State, k: nat, i: nat)
    requires Numbering(pm, s) && StackShape(s.st, s.onStack, s.index) && LowsWitnessed(pm, s)
    requires k <= i < |s.st|
    requires s.low[s.st[k]] == s.index[s.st[k]]
    requires forall i' :: k <= i' < |s.st| ==> s.low[s.st[i']] >= s.low[s.st[k]]
    requires forall i' :: k < i' < |s.st| ==> s.low[s.st[i']] < s.index[s.st[i']]
    ensures Reaches(pm, s.st[i], s.st[k])
    decreases i
  {
    if i == k {
      ReachesRefl(pm, s.st[k]);
    } else {
      var v := s.st[i];
      assert LowWitnessed(pm, s, i);
      var j :| 0 <= j <= i && s.st[j] in s.index && s.index[s.st[j]] == s.low[v] && Reaches(pm, v, s.st[j]);
      StackPositions(s, j, k);
      StackPositions(s, j, i);
      SegmentReachesRoot(pm, s, k, j);
      ReachesTrans(pm, v, s.st[j], s.st[k]);
    }
  }

  lemma PopStack(s: State, k: nat)
    requires StackShape(s.st, s.onStack, s.index)
    requires k < |s.st|
    ensures StackShape(Pop(s, k).st, Pop(s, k).onStack, Pop(s, k).index)
  {
    var s' := Pop(s, k);
    forall v
      ensures LookupFlag(s'.onStack, v) <==> v in s'.st
    {
      if v in s.st {
        SegmentByIndex(s, k, v);
      } else {
        assert v !in s.st[..k] && v !in s.st[k..];
      }
    }
    forall i, j | 0 <= i < j < |s'.st|
      ensures s'.index[s'.st[i]] < s'.index[s'.st[j]]
    {
      assert s'.st[i] == s.st[i] && s'.st[j] == s.st[j];
    }
  }

  lemma PopScc(s: State, k: nat)
    requires s.numSccs >= 1 && StackShape(s.st, s.onStack, s.index)
    requires SccShape(s.scc, s.index, s.st, s.numSccs)
    requires k < |s.st|
    ensures SccShape(Pop(s, k).scc, Pop(s, k).index, Pop(s, k).st, Pop(s, k).numSccs)
  {
    var s' := Pop(s, k);
    forall v
      ensures v in s'.scc <==> v in s'.index && v !in s'.st
    {
      if v in s.st {
        SegmentByIndex(s, k, v);
      } else {
        assert v !in s.st[..k] && v !in s.st[k..];
      }
    }
  }

  lemma PopShape(pm: ProcMap, s: State, k: nat)
    requires Numbering(pm, s) && StackShape(s.st, s.onStack, s.index)
    requires SccShape(s.scc, s.index, s.st, s.numSccs)
    requires k < |s.st|
    ensures Numbering(pm, Pop(s, k))
    ensures StackShape(Pop(s, k).st, Pop(s, k).onStack, Pop(s, k).index)
    ensures SccShape(Pop(s, k).scc, Pop(s, k).index, Pop(s, k).st, Pop(s, k).numSccs)
  {
    PopStack(s, k);
    PopScc(s, k);
  }

  /** One call of a finished procedure stays settled when the segment from
      k up is popped as a component. */
  lemma PopEdge(s: State, k: nat, v: string, q: string)
    requires StackShape(s.st, s.onStack, s.index) && SccShape(s.scc, s.index, s.st, s.numSccs)
    requires k < |s.st|
    requires forall x :: x in s.st[k..] ==> x in s.low && s.low[x] >= s.index[s.st[k]]
    requires v in s.index && v in s.low && EdgeSettled(s, v, q)
    ensures EdgeSettled(Pop(s, k), v, q)
  {
    var seg := s.st[k..];
    if v in s.st {
      SegmentByIndex(s, k, v);
    }
    if q in s.st {
      SegmentByIndex(s, k, q);
    }
  }

  lemma PopEdges(pm: ProcMap, s: State, k: nat, gray: set<string>)
    requires StackShape(s.st, s.onStack, s.index) && SccShape(s.scc, s.index, s.st, s.numSccs)
    requires k < |s.st|
    requires EdgesSettled(pm, s, gray)
    requires SliceLowsAtLeast(s, k, s.index[s.st[k]])
    ensures EdgesSettled(pm, Pop(s, k), gray)
  {
    forall v, q | v in s.index && v in s.low && v !in gray && Edge(pm, v, q)
      ensures EdgeSettled(Pop(s, k), v, q)
    {
      PopEdge(s, k, v, q);
    }
  }

  /** Low-links bounded from position k up, restated by membership in the
      popped segment. */
  ghost predicate SliceLowsAtLeast(s: State, k: nat, b: nat)
    requires k <= |s.st|
  {
    forall x :: x in s.st[k..] ==> x in s.low && s.low[x] >= b
  }

  lemma SegmentLowBySlice(s0: State, s: State, p: string)
    requires |s0.st| <= |s.st| && SegmentLowAbove(s0, s, p)
    ensures SliceLowsAtLeast(s, |s0.st|, s.low[p])
  {
    var k := |s0.st|;
    var b := s.low[p];
    forall x | x in s.st[k..]
      ensures x in s.low && s.low[x] >= b
    {
      var j :| 0 <= j < |s.st| - k && s.st[k..][j] == x;
      assert s.st[k + j] == x;
    }
  }

  lemma PopLows(pm: ProcMap, s: State, k: nat, gray: set<string>)
    requires Numbering(pm, s) && StackShape(s.st, s.onStack, s.index) && LowsWitnessed(pm, s)
    requires k < |s.st|
    requires FinishedNotRoots(s, gray + {s.st[k]}) && GrayOnStack(s.st, gray)
    requires GrayBelow(s, gray, s.index[s.st[k]])
    ensures LowsWitnessed(pm, Pop(s, k))
    ensures FinishedNotRoots(Pop(s, k), gray)
    ensures GrayOnStack(Pop(s, k).st, gray)
  {
    var s' := Pop(s, k);
    forall i | 0 <= i < |s'.st|
      ensures LowWitnessed(pm, s', i)
    {
      assert LowWitnessed(pm, s, i);
      assert s'.st[..i + 1] == s.st[..i + 1];
      WitnessKept(pm, s, s', i);
    }
    forall v | v in s'.st && v !in gray && v in s'.index && v in s'.low
      ensures s'.low[v] < s'.index[v]
    {
      assert v in s.st;
      SegmentByIndex(s, k, v);
    }
    forall g | g in gray
      ensures g in s'.st
    {
      SegmentByIndex(s, k, g);
    }
  }

  /** Every in-progress procedure is indexed below b. */
  ghost predicate GrayBelow(s: State, gray: set<string>, b: nat) {
    forall g :: g in gray ==> g in s.index && s.index[g] < b
  }

  lemma EnteredGrayBelow(pm: ProcMap, s0: State, s: State, gray: set<string>, p: string)
    requires Entered(pm, s0, s, gray, p)
    ensures GrayBelow(s, gray, s.index[p])
  {
  }

  /** The entries from k up and the entry at k reach each other. */
  ghost predicate SegmentMutual(pm: ProcMap, s: State, k: nat)
    requires k < |s.st|
  {
    forall i :: k <= i < |s.st| ==> Reaches(pm, s.st[i], s.st[k]) && Reaches(pm, s.st[k], s.st[i])
  }

  lemma PopConnected(pm: ProcMap, s: State, k: nat)
    requires StackShape(s.st, s.onStack, s.index)
    requires SccShape(s.scc, s.index, s.st, s.numSccs) && SccsConnected(pm, s.scc)
    requires k < |s.st|
    requires SegmentMutual(pm, s, k)
    ensures SccsConnected(pm, Pop(s, k).scc)
  {
    var s' := Pop(s, k);
    var seg := s.st[k..];
    forall u, v | u in s'.scc && v in s'.scc && s'.scc[u] == s'.scc[v]
      ensures Reaches(pm, u, v)
    {
      if u in seg || v in seg {
        assert u in seg && v in seg;
        var iu :| 0 <= iu < |seg| && seg[iu] == u;
        var iv :| 0 <= iv < |seg| && seg[iv] == v;
        assert s.st[k + iu] == u && s.st[k + iv] == v;
        ReachesTrans(pm, u, s.st[k], v);
      } else {
        assert Reaches(pm, u, v);
      }
    }
  }

  /** Procedures whose visit has finished have all their calls settled, once
      p's callees have all been looked at. */
  lemma CloseGray(pm: ProcMap, s0: State, s: State, gray: set<string>, p: string)
    requires p in pm
    requires LoopInv(pm, s0, s, gray, p, BlocksCallees(pm[p].blocks))
    ensures EdgesSettled(pm, s, gray)
  {
    forall v, q | v in s.index && v in s.low && v !in gray && Edge(pm, v, q)
      ensures EdgeSettled(s, v, q)
    {
      if v == p {
        EdgeIffCallee(pm, p, q);
        assert p in s.st;
      }
    }
  }

  /** p finished as the root of a component: popping its segment gives the
      state its caller expects. */
  lemma FinishRoot(pm: ProcMap, s0: State, s: State, gray: set<string>, p: string)
    requires p in pm
    requires LoopInv(pm, s0, s, gray, p, BlocksCallees(pm[p].blocks))
    requires s.low[p] == s.index[p]
    ensures DfsPost(pm, s0, Pop(s, |s0.st|), gray, p)
  {
    var k := |s0.st|;
    FinishRootInv(pm, s0, s, gray, p);
    PopExtends(pm, s0, s, gray, p);
    assert Pop(s, k).st == s0.st;
  }

  /** The entries above the root are finished, so none of them is a root. */
  lemma AboveRootNotRoots(pm: ProcMap, s0: State, s: State, gray: set<string>, p: string)
    requires Numbering(pm, s) && StackShape(s.st, s.onStack, s.index) && FinishedNotRoots(s, gray + {p})
    requires Entered(pm, s0, s, gray, p)
    ensures forall i :: |s0.st| < i < |s.st| ==> s.low[s.st[i]] < s.index[s.st[i]]
  {
    var k := |s0.st|;
    forall i | k < i < |s.st|
      ensures s.low[s.st[i]] < s.index[s.st[i]]
    {
      StackPositions(s, i, k);
    }
  }

  /** With p its own root, p and every entry above it reach each other. */
  lemma RootSegmentConnected(pm: ProcMap, s0: State, s: State, gray: set<string>, p: string)
    requires Numbering(pm, s) && StackShape(s.st, s.onStack, s.index) && LowsWitnessed(pm, s)
    requires FinishedNotRoots(s, gray + {p}) && Entered(pm, s0, s, gray, p)
    requires SegmentLowAbove(s0, s, p) && NewReachable(pm, s0.maxIndex, s.index, p)
    requires s.low[p] == s.index[p]
    ensures SegmentMutual(pm, s, |s0.st|)
  {
    var k := |s0.st|;
    AboveRootNotRoots(pm, s0, s, gray, p);
    forall i | k <= i < |s.st|
      ensures Reaches(pm, s.st[i], s.st[k]) && Reaches(pm, s.st[k], s.st[i])
    {
      SegmentReachesRoot(pm, s, k, i);
      StackPositions(s, i, k);
    }
  }

  lemma FinishRootInv(pm: ProcMap, s0: State, s: State, gray: set<string>, p: string)
    requires p in pm
    requires LoopInv(pm, s0, s, gray, p, BlocksCallees(pm[p].blocks))
    requires s.low[p] == s.index[p]
    ensures Inv(pm, Pop(s, |s0.st|), gray)
  {
    var k := |s0.st|;
    CloseGray(pm, s0, s, gray, p);
    RootSegmentConnected(pm, s0, s, gray, p);
    EnteredGrayBelow(pm, s0, s, gray, p);
    PopShape(pm, s, k);
    assert s.st[k] == p;
    SegmentLowBySlice(s0, s, p);
    PopEdges(pm, s, k, gray);
    PopLows(pm, s, k, gray);
    PopConnected(pm, s, k);
  }

  lemma PopExtends(pm: ProcMap, s0: State, s: State, gray: set<string>, p: string)
    requires StackShape(s.st, s.onStack, s.index) && SccShape(s.scc, s.index, s.st, s.numSccs)
    requires Entered(pm, s0, s, gray, p)
    ensures Extends(s0, Pop(s, |s0.st|))
  {
    var k := |s0.st|;
    var s' := Pop(s, k);
    forall v | v in s'.scc && v !in s0.scc
      ensures v !in s0.index && s'.scc[v] >= s0.numSccs
    {
      if v !in s.scc {
        SegmentByIndex(s, k, v);
      }
    }
    forall v | v in s0.scc
      ensures v in s'.scc && s'.scc[v] == s0.scc[v]
    {
      assert v !in s.st;
    }
  }

  /** Entering p leaves fewer declared procedures unvisited. */
  lemma EnteredShrinks(pm: ProcMap, s0: State, s: State, gray: set<string>, p: string)
    requires Entered(pm, s0, s, gray, p)
    ensures pm.Keys - s.index.Keys < pm.Keys - s0.index.Keys
  {
    assert p in pm.Keys - s0.index.Keys;
  }

  /** A procedure in progress is the topmost occurrence of its name on the
      stack, just above its caller's part. */
  lemma RootOnTop(pm: ProcMap, s0: State, s: State, gray: set<string>, p: string)
    requires StackShape(s.st, s.onStack, s.index) && Entered(pm, s0, s, gray, p)
    ensures |s0.st| < |s.st| && s.st[|s0.st|] == p
    ensures forall i :: |s0.st| < i < |s.st| ==> s.st[i] != p
  {
    forall i | |s0.st| < i < |s.st|
      ensures s.st[i] != p
    {
      StackPositions(s, i, |s0.st|);
    }
  }

  /** p finished but is not the root of its component: it stays on the
      stack. */
  lemma FinishInner(pm: ProcMap, s0: State, s: State, gray: set<string>, p: string)
    requires p in pm
    requires LoopInv(pm, s0, s, gray, p, BlocksCallees(pm[p].blocks))
    requires s.low[p] < s.index[p]
    ensures DfsPost(pm, s0, s, gray, p)
  {
    CloseGray(pm, s0, s, gray, p);
    assert FinishedNotRoots(s, gray);
    assert p !in s.scc;
  }

  /** The search is over: nothing on the stack and every declared procedure
      visited. */
  ghost predicate Done(pm: ProcMap, s: State) {
    Inv(pm, s, {}) && s.st == [] && pm.Keys <= s.index.Keys
  }

  /** A top-level visit started on an empty stack always completes its root's
      component, so the stack is empty again afterwards. */
  lemma TopLevelVisitEmptiesStack(pm: ProcMap, s0: State, s: State, p: string)
    requires s0.st == [] && DfsPost(pm, s0, s, {}, p)
    ensures s.st == []
  {
    if s.st != [] {
      BottomIsRoot(pm, s, {});
    }
  }

  /** The entry at the bottom of the stack is the root of its component: its
      low-link is its own index. */
  lemma BottomIsRoot(pm: ProcMap, s: State, gray: set<string>)
    requires Inv(pm, s, gray) && s.st != []
    ensures s.st[0] in s.index && s.low[s.st[0]] == s.index[s.st[0]]
  {
    assert LowWitnessed(pm, s, 0);
  }

  /** After the search every declared procedure has a component, and along a
      call the callee's component is never numbered after the caller's. */
  lemma {:induction false} DoneCallOrder(pm: ProcMap, s: State, u: string, v: string)
    requires Done(pm, s)
    requires Edge(pm, u, v)
    ensures u in s.scc && v in s.scc
    ensures 1 <= s.scc[v] <= s.scc[u] < s.numSccs
  {
    assert EdgeSettled(s, u, v);
  }

  /** After the search two declared procedures share a component exactly when
      each reaches the other. */
  lemma {:induction false} DoneSccIffMutualReach(pm: ProcMap, s: State, u: string, v: string)
    requires Done(pm, s)
    requires u in pm && v in pm
    ensures u in s.scc && v in s.scc
    ensures s.scc[u] == s.scc[v] <==> Reaches(pm, u, v) && Reaches(pm, v, u)
  {
    forall a, b | Edge(pm, a, b)
      ensures s.scc[b] <= s.scc[a]
    {
      DoneCallOrder(pm, s, a, b);
    }
    if Reaches(pm, u, v) && Reaches(pm, v, u) {
      RankNonIncreasing(pm, s.scc, u, v);
      RankNonIncreasing(pm, s.scc, v, u);
    }
  }
}
