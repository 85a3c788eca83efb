# Modifies-clause inference and error-trace replay in SMACK

This project models two parts of SMACK, the LLVM-to-Boogie verifier, and
proves their properties in Dafny.

**The GenModifies pass** (`lib/smack/GenModifies.cpp`) infers Boogie
`modifies` clauses for the procedures of a translated program.

- It numbers the strongly connected components of the call graph with
  Tarjan's algorithm.
- It collects, per component, the names its procedures' statements mention
  in certain positions that look like memory globals. A name qualifies when
  it contains `$M`, then any one character, then a digit. The positions are
  assignment targets, variables passed to a function application on an
  assignment's right-hand side, and call returns and call arguments. Below,
  a procedure "touches" the names it mentions this way.
- It builds the graph from each component to the components that call it.
- It propagates the touched globals up that graph and adds SMACK's own
  Boogie globals.
- It appends each component's set, in ascending order, to the modifies list
  of every procedure with a body.
- For the hand-written Boogie text, it builds the textual clause
  `modifies g1, g2, ...;`. It splices that clause into the prelude after
  `procedure $global_allocations()` and into every textual procedure
  declaration that does not yet have one.

**The replay harness generator** (`share/smack/replay.py`) turns a
verifier's error trace into C stubs:

- it reads the undefined symbols from a failed link;
- it groups the trace's `(smack:key = value)` records by key;
- it sorts the keys into return values (`ext:`) and entry-point arguments
  (`arg:`);
- it emits a C file with a fixed header, one stub per missing function that
  has recorded return values, and one entry-point wrapper per annotated
  function.

The pass is modelled as a class `GenModifies.GenModifies` whose fields are
the pass's members (`proc`, the Tarjan stack and maps, `modVars`,
`sccGraph`). There is one method per member function of the source. Each
method is proved equal to a function on values:

- `Search.Visit` and its companions for the component search;
- `Direct.DirectMods` for the direct effects;
- `SccGraph.DeclsEdges` for the component graph;
- `Propagation.Pass` for the propagation.

Lemmas then prove what those functions compute:

- two procedures share a component exactly when each reaches the other;
- a callee's component number never exceeds its caller's;
- after the whole pass, a procedure's component holds exactly the Boogie
  globals plus every global touched by a procedure it reaches through calls.

The text-level steps are modelled on strings. The two regular expressions
of `addModifiesToSmackProcs` are written out as predicates.

The replay script is modelled by functions over sequences (Python lists and
dicts), plus methods with the script's loops, each proved equal to its
function.

## Model

| member | source | states |
|---|---|---|
| Ast.Program.constructor | lib/smack/GenModifies.cpp:43 | a program holds its declarations and its prelude text, both of which the pass rewrites |
| Ast.ProcMapOf | lib/smack/GenModifies.cpp:19-25 | every declared procedure is recorded under its own name |
| Ast.ProcMapOfDecls | lib/smack/GenModifies.cpp:19-25 | with distinct procedure names, the map holds exactly the declared procedures, each under its name |
| Ast.StmtsCalleesSpec | lib/smack/GenModifies.cpp:101-115 | a name is a callee of a block exactly when some call statement of the block names it |
| Ast.BlocksCalleesSpec | lib/smack/GenModifies.cpp:101-115 | a name is a callee of a body exactly when some call statement in some block names it |
| CallGraph.EdgeIffCallee | lib/smack/GenModifies.cpp:101-115 | the call graph has an edge u to v exactly when u's body contains a call to v |
| CallGraph.ReachesTrans | lib/smack/GenModifies.cpp:93-120 | reachability through calls is transitive |
| GenModifies.GenModifies.constructor | lib/smack/GenModifies.cpp:77-130 | a new pass starts with nothing visited, the next index 1, and one reserved slot in modVars and in the component graph; the header that sets these is not part of this model, so the values are the ones the code's use implies (0 means unvisited at 106 and 125, component 0 is skipped at 135) |
| GenModifies.GenModifies.InitProcMap | lib/smack/GenModifies.cpp:19-25 | the procedure map is extended by every procedure declaration of the program, keyed by name |
| GenModifies.GenModifies.AddNewScc | lib/smack/GenModifies.cpp:77-91 | the stack is popped down to and including the root; the popped procedures leave the stack and get the next component number; one empty modifies slot and one empty parent set are added |
| GenModifies.GenModifies.Dfs | lib/smack/GenModifies.cpp:93-120 | the new state is exactly the recursive visit `Search.Visit` of the procedure |
| GenModifies.GenModifies.VisitBlock | lib/smack/GenModifies.cpp:101-115 | the calls of one block are visited in order, as `Search.VisitStmts` |
| GenModifies.GenModifies.VisitCall | lib/smack/GenModifies.cpp:103-112 | an unvisited callee is searched and lowers the caller's low-link to its own; a callee on the stack lowers it to its index; any other callee changes nothing |
| GenModifies.GenModifies.GenSccs | lib/smack/GenModifies.cpp:122-130 | every unvisited procedure declaration is searched in declaration order (`Search.VisitDecls`) |
| GenModifies.GenModifies.AddIfGlobalVar | lib/smack/GenModifies.cpp:156-163 | the name is added to its procedure's component set exactly when it contains `$M`, one character and a digit |
| GenModifies.GenModifies.CalcModifiesOfExprs | lib/smack/GenModifies.cpp:165-171 | the component set grows by the global variables among the expressions that are plain variables |
| GenModifies.GenModifies.CalcModifiesOfStmt | lib/smack/GenModifies.cpp:173-189 | an assignment adds its global left-hand sides and the global variable arguments of function applications on its right; a call adds its global return targets and global variable parameters; nothing else adds anything |
| GenModifies.GenModifies.CalcModifiesOfSccs | lib/smack/GenModifies.cpp:191-201 | every procedure declaration's statements are folded into its component's set (`Direct.DirectMods`) |
| GenModifies.GenModifies.AddEdge | lib/smack/GenModifies.cpp:132-138 | the caller's component becomes a parent of the callee's, unless the callee has no component or both are the same |
| GenModifies.GenModifies.GenSccGraph | lib/smack/GenModifies.cpp:140-154 | the graph gets one parent edge per call statement of every procedure declaration (`SccGraph.DeclsEdges`) |
| GenModifies.GenModifies.PropagateModifiesUpGraph | lib/smack/GenModifies.cpp:203-209 | in ascending child order, every parent's set absorbs its child's set (`Propagation.Pass`) |
| GenModifies.GenModifies.AddSmackGlobals | lib/smack/GenModifies.cpp:211-215 | every component set, the reserved one included, gains all the Boogie globals |
| GenModifies.GenModifies.AddModifies | lib/smack/GenModifies.cpp:217-229 | every procedure declaration with a body gets its component's set appended to its modifies list in ascending order; all other declarations are unchanged |
| GenModifies.GenModifies.GenUserCodeModifies | lib/smack/GenModifies.cpp:231-243 | after the whole pass the search is complete, and a procedure's component set holds a variable exactly when it is a Boogie global or is touched by some procedure the first reaches through calls; that set is appended to each procedure with a body |
| Tarjan.Lookup | lib/smack/GenModifies.cpp:106-111 | reading an absent key of a `std::map<std::string, int>` yields 0 |
| Tarjan.MarkOff | lib/smack/GenModifies.cpp:84 | the popped procedures are flagged off the stack and every other flag is kept |
| Tarjan.AssignScc | lib/smack/GenModifies.cpp:86 | the popped procedures get the component number and every other number is kept |
| Tarjan.InitialInv | lib/smack/GenModifies.cpp:77-130 | the fresh search state satisfies the search invariant |
| Tarjan.DoneCallOrder | lib/smack/GenModifies.cpp:77-130 | after the search, a callee's component number is positive and at most its caller's |
| Tarjan.DoneSccIffMutualReach | lib/smack/GenModifies.cpp:77-130 | after the search, two procedures share a component number exactly when each reaches the other through calls |
| Search.PopComponent | lib/smack/GenModifies.cpp:77-91 | popping keeps indices and low-links, and leaves the stack a strict prefix of itself that ends just below the topmost root |
| Search.PopComponentIsPop | lib/smack/GenModifies.cpp:77-91 | popping down to the topmost root equals removing the stack segment above it in one step |
| Search.Visit | lib/smack/GenModifies.cpp:93-120 | a visit keeps indices positive, keeps visited procedures visited and leaves the stack below it as it was |
| Search.VisitDecls | lib/smack/GenModifies.cpp:122-130 | the same holds for the search over all declarations |
| Search.VisitSound | lib/smack/GenModifies.cpp:93-120 | one visit from a state satisfying the invariant leaves a state satisfying the invariant and the post-condition of a depth-first visit |
| Search.SearchComplete | lib/smack/GenModifies.cpp:122-130 | searching from every declaration in turn finishes the search: empty stack, every procedure visited, invariant holding |
| Globals.GlobalVarNameIff | lib/smack/GenModifies.cpp:157-158 | a name is recorded exactly when the pattern `\$M.[[:digit:]]+` matches somewhere in it |
| Globals.SearchFromSpec | lib/smack/GenModifies.cpp:157-158 | the left-to-right scan finds a match exactly when one starts at or after the scan position |
| Globals.StmtEffects | lib/smack/GenModifies.cpp:173-189 | every name a statement contributes is a global variable name |
| Direct.StmtsEffectsSpec | lib/smack/GenModifies.cpp:195-197 | a block touches a variable exactly when one of its statements does |
| Direct.BodyEffectsSpec | lib/smack/GenModifies.cpp:194-198 | a body touches a variable exactly when a statement of one of its blocks does |
| Direct.AddTo | lib/smack/GenModifies.cpp:161 | inserting into one component set changes only that set, by union |
| Direct.DirectModsSpec | lib/smack/GenModifies.cpp:191-201 | a component set holds a variable exactly when it already did, or a procedure declaration in that component touches it |
| Inference.DirectOfSearch | lib/smack/GenModifies.cpp:191-201 | after the search, a component's direct set holds exactly the variables touched by the procedures in it |
| SccGraph.AddEdge | lib/smack/GenModifies.cpp:132-138 | the parent is added to the callee component's parents exactly when the callee has a component that differs from the parent |
| SccGraph.DeclsEdgesSpec | lib/smack/GenModifies.cpp:140-154 | a component has a parent exactly when it already did, or some declared procedure in that parent calls a procedure of the component |
| Inference.EdgesOfSearch | lib/smack/GenModifies.cpp:140-154 | after the search, the graph built holds exactly the caller-to-callee component edges, which always go to a smaller number |
| Inference.ComponentGraphAscends | lib/smack/GenModifies.cpp:203-209 | every parent has a larger number than its child, so one ascending sweep suffices |
| Propagation.StepOnMore | lib/smack/GenModifies.cpp:205-207 | the parents of a child can be absorbed one at a time, in any order |
| Propagation.FlowsUnfold | lib/smack/GenModifies.cpp:203-209 | a variable flows into a component exactly when it is there or flows into one of its children |
| Propagation.PassComputesFlow | lib/smack/GenModifies.cpp:203-209 | in an ascending graph, one sweep leaves in each component exactly the variables that flow into it from below |
| Propagation.PassGrows | lib/smack/GenModifies.cpp:203-209 | propagation never removes a variable |
| Inference.PathReaches | lib/smack/GenModifies.cpp:203-209 | a path up the component graph is a chain of calls between the procedures of those components |
| Inference.ReachesPath | lib/smack/GenModifies.cpp:203-209 | a chain of calls gives a path up the component graph |
| Inference.PropagatedIsReachable | lib/smack/GenModifies.cpp:191-209 | after propagation, a procedure's component holds a variable exactly when some procedure it reaches touches it |
| Inference.AfterSearch | lib/smack/GenModifies.cpp:231-243 | the same for every procedure at once, together with every bound the later steps need |
| Inference.FitsAfterSearch | lib/smack/GenModifies.cpp:233-238 | once the search is done, every component number the later steps index with is in range and the component graph fits the component sets |
| Inference.WithGlobals | lib/smack/GenModifies.cpp:211-215 | adding the same globals to every component set keeps what propagation gave each procedure and adds exactly those globals |
| Inference.Inferred | lib/smack/GenModifies.cpp:231-243 | after direct effects, the component graph, propagation and the globals, a procedure's component holds a variable exactly when it is a Boogie global or some procedure it reaches touches it |
| Ordered.LexLessTotal | lib/smack/GenModifies.cpp:30 | the byte-wise string order of `std::set<std::string>` is total |
| Ordered.LexLessTransitive | lib/smack/GenModifies.cpp:30 | that order is transitive |
| Ordered.SortedUnique | lib/smack/GenModifies.cpp:30 | a set has only one ascending listing |
| Ordered.SortedElements | lib/smack/GenModifies.cpp:30 | the set's elements are listed in strictly ascending order, each once |
| SmackCode.ClauseTextJoined | lib/smack/GenModifies.cpp:27-38 | the clause is "\nmodifies " followed by the globals joined by ", " and ";\n"; for no globals it degenerates to "\nmodifie;\n" |
| SmackCode.ModifiesClause | lib/smack/GenModifies.cpp:27-38 | the loop builds that clause from the globals in ascending order |
| SmackCode.FixPrelude | lib/smack/GenModifies.cpp:40-51 | given a prelude that carries the marker, the prelude becomes the corrected splice, the clause right after the marker's first occurrence (see Findings) |
| SmackCode.FixedPreludeSplices | lib/smack/GenModifies.cpp:40-51 | when the marker is present, the clause is inserted right after its first occurrence, and deleting it gives the old prelude back |
| SmackCode.FixedAgreesWithMarker | lib/smack/GenModifies.cpp:45-50 | when the marker is present, the code as written computes the same prelude as the corrected splice |
| SmackCode.AsWrittenWithoutMarker | lib/smack/GenModifies.cpp:45-50 | without the marker, the code as written inserts the clause at offset 31, or throws when the prelude is shorter, while the corrected splice stops with an error |
| Patterns.SplitUnique | lib/smack/GenModifies.cpp:55 | PROC_DECL splits a text into header and body in at most one place |
| Patterns.HeaderEnd | lib/smack/GenModifies.cpp:55 | the header group of a matching declaration ends at a '{' that starts the body group |
| SmackCode.AddModifiesToSmackProcs | lib/smack/GenModifies.cpp:53-67 | every textual declaration that is a procedure without a modifies clause gets the clause between its header and its body; every other declaration is unchanged |
| SmackCode.ClauseMatches | lib/smack/GenModifies.cpp:56 | any text containing a clause built from Boogie names matches MOD_CL |
| SmackCode.RewriteIdempotent | lib/smack/GenModifies.cpp:53-67 | rewriting twice with a non-empty clause is the same as rewriting once |
| SmackCode.GenSmackCodeModifies | lib/smack/GenModifies.cpp:69-75 | given a prelude that carries the marker, the prelude and the textual procedures are rewritten with the clause for the ascending globals |
| Patterns.ModClauseBlankBeforeComma | lib/smack/GenModifies.cpp:56 | MOD_CL allows blanks before a comma of the list |
| Patterns.ModClauseNoBlankBeforeSemicolon | lib/smack/GenModifies.cpp:56 | MOD_CL does not match when a blank stands before the list's ';' |
| Replay.CaptureSpec | share/smack/replay.py:56 | a line gives a name exactly when the pattern matches; the name lies between the leftmost `"_` and the last `", referenced from:` after it |
| Replay.CapturesSpec | share/smack/replay.py:53-59 | a name is reported exactly when some line of the linker output yields it |
| Replay.CapturesAppend | share/smack/replay.py:55-58 | the names of two runs of lines are those of the first followed by those of the second |
| Replay.DetectMissingDefinitions | share/smack/replay.py:53-59 | the loop reports, in line order, the names the lines yield |
| Replay.AggregateValues | share/smack/replay.py:61-69 | the loop computes the grouping of values by key |
| Replay.AggregatedFails | share/smack/replay.py:64 | the grouping fails exactly when some stripped line does not split into two fields |
| Replay.AggregatedFailsFirst | share/smack/replay.py:63-64 | the failure names the first such line |
| Replay.AggregatedValues | share/smack/replay.py:61-69 | on success, keys are distinct, every line contributes one value, each key holds the values of its lines in order, and a key is present exactly when a line has it |
| Replay.AggregatedNonEmpty | share/smack/replay.py:66-68 | every key holds at least one value |
| Replay.KindOfSpec | share/smack/replay.py:76-85 | a key is a return-value key when it contains `ext:` and one colon, an argument key when it has no `ext:`, contains `arg:` and has two colons, and ignored when it has neither marker; the parts rebuild the key |
| Replay.Classify | share/smack/replay.py:73-85 | the loop computes the classification of the groups |
| Replay.ClassifiedFails | share/smack/replay.py:76-83 | classification fails exactly when some key has a marker but the wrong number of colons (the ValueError), or is an `arg:` key whose value list is empty (the IndexError of `vals[0]`); the error is that of the first such key |
| Replay.ClassifiedReturnValues | share/smack/replay.py:76-78 | each function's return values are those of its last `ext:` key |
| Replay.ClassifiedEntryPoints | share/smack/replay.py:79-82 | the entry points are exactly the functions with an `arg:` key |
| Replay.ClassifiedArguments | share/smack/replay.py:79-83 | each argument holds the first value of the last key naming it |
| Replay.Candidates | share/smack/replay.py:111 | the candidates are the missing names other than the three special ones, each once |
| Replay.Stubs | share/smack/replay.py:111-123 | one stub per candidate with recorded return values, in candidate order |
| Replay.StubsEmitted | share/smack/replay.py:111-123 | a stub is emitted exactly for each missing, non-special function with an `ext:` key, listing that key's values |
| Replay.Wrappers | share/smack/replay.py:134-140 | one wrapper per entry point, calling it with its argument values in order |
| Replay.AddStubs | share/smack/replay.py:111-123 | the loop appends exactly those stubs |
| Replay.AddWrappers | share/smack/replay.py:134-140 | the loop appends exactly those wrappers |
| Replay.StubModule | share/smack/replay.py:72-142 | the result is the header, the stubs and the wrappers joined by newlines, or the classification's error |
| Replay.AggregatedKeysOnly | share/smack/replay.py:61-85 | given grouped trace records, the harness can only fail on a malformed key |

## Left out

- `runOnModule` (lib/smack/GenModifies.cpp:245-263) is not modelled. It is
  LLVM pass plumbing: it fetches the program and the Boogie globals from
  another pass, then calls `initProcMap`, `genSmackCodeModifies` when there
  are globals, and `genUserCodeModifies`.
- ExtractContracts, the DSA analysis, SmackOptions and the bit-field test
  program are not part of this model.
- LLVM's regular-expression engine is not modelled. Its three patterns are
  written out as predicates, and the model uses the ones in the source:
  - `$M.[[:digit:]]+` becomes Globals.IsGlobalVarName;
  - `PROC_DECL` becomes Patterns.SplitsAt;
  - `MOD_CL` becomes Patterns.HasModClause.
- GenUserCodeModifies: procedure names are assumed distinct. The same
  requirement stands on Search.SearchComplete, Ast.ProcMapOfDecls and the
  Inference lemmas. Boogie rejects a program that declares a procedure
  twice. With a duplicate, the source would visit the first declaration
  while `proc` holds the last, and the model does not capture that.
- FixPrelude and GenSmackCodeModifies require the prelude to carry the
  marker. The code as written splices the clause at offset 31, or throws,
  when the marker is missing (see Findings). The corrected behaviour treats
  a missing marker as an error (SmackCode.FixedPrelude returns None), so the
  methods are stated only for preludes that have it.
- Strings are sequences of Unicode characters. The source's regex `.` and
  `[[:space:]]`, `isspace`, the byte order of `std::string` and Python 2's
  `str` all work on bytes. For text outside ASCII the model can therefore
  differ, for example Globals.GlobalAt, where `.` matches one byte rather
  than one character, and Text.IsSpace.
- Procedure declarations are values. The source's `proc` map holds pointers
  to the declarations that `addModifies` later changes. The model's map holds
  copies, so that aliasing is not captured.
- A `std::map` read through `operator[]` inserts a default entry for an
  absent key. The model reads 0 or false and adds nothing (Tarjan.Lookup).
- GenModifies.GenModifies.PropagateModifiesUpGraph: the parents of one child
  are taken in an unspecified order rather than ascending. The result does
  not depend on it (Propagation.StepOnMore).
- Python 2 dictionaries and sets iterate in hash order. The model fixes an
  order:
  - dictionaries iterate in insertion order;
  - `set(missing) - set(SPECIAL_NAMES)` iterates in order of first
    occurrence.
  Stub order and wrapper order in the emitted file follow that choice.
- `collect_returns` and `replay_error_trace` (share/smack/replay.py:9-51)
  are not modelled. They run clang, grep and sed, write files and print.
  Replay.AggregateValues takes the lines they would produce.
- The warnings printed by `stub_module` (lines 85, 123, 126, 129-132) are
  not modelled. They include the one at line 126, which prints the stale
  loop variable `fn`. Only the returned text is modelled.
- Python exceptions are modelled as results, not exceptions. These are the
  ValueError of a line or key with the wrong number of fields, and the
  IndexError of an argument key whose list is empty. Replay.Error names the
  line or key.
- The commented-out debug output is not modelled.
- Helper methods that the source writes as nested loops inside one member
  are not separate operations there. They carry the source lines of the loop
  they stand for: GenModifies.GenModifies.CalcModifiesOfBody,
  GenModifies.GenModifies.CalcModifiesOfBlock, Replay.Classify,
  Replay.AddStubs and Replay.AddWrappers.

## Findings

| source | as written | input that shows it | evidently intended | confidence | as-written member | corrected member |
|---|---|---|---|---|---|---|
| lib/smack/GenModifies.cpp:45-48 | `find` returns `npos` when the prelude lacks `procedure $global_allocations()\n`; adding the marker's length 32 wraps the `size_t` to 31 | a prelude of 31 or more characters without the marker gets the clause spliced in at offset 31, in the middle of whatever is there; a shorter prelude makes `substr(pos)` throw `out_of_range` | insert the clause only after the marker, and stop with an error when the prelude lacks it | not executed | SmackCode.PreludeAsWritten, SmackCode.AsWrittenWithoutMarker | SmackCode.FixedPrelude, SmackCode.FixedPreludeSplices |
