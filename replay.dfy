// The replay harness generator. When the verifier reports an error trace,
// the program is linked again with a C file of stubs: each function the
// linker reports as undefined returns, call after call, the values the trace
// recorded for it, and an entry point wrapper calls the program's entry point
// with the trace's arguments. Three steps build that file: reading the
// undefined names off the linker's complaint, gathering the recorded values
// per key, and writing the C text.
module Replay {
  import opened Text
  import opened Dicts

  /** Names the harness itself defines; they never get a stub. */
  const SpecialNames: seq<string> := ["__VERIFIER_assert", "__VERIFIER_assume", "main"]

  /** Why a step gives up (Python raises ValueError or IndexError there). */
  datatype Error =
    | MalformedLine(index: nat)   // the line at index does not split into two fields at ','
    | MalformedKey(key: string)   // the key does not have the parts its kind needs
    | NoValue(key: string)        // an argument key without any value

  datatype Result<T> = Ok(value: T) | Fail(error: Error)

  // ---- the undefined names ----

  /** What the linker writes before and after an undefined name. */
  const Prefix: string := "\"_"
  const Suffix: string := "\", referenced from:"

  /** The pattern "_(.*)", referenced from: matches the line with the quote
      and underscore at p and the closing text at q. */
  predicate MatchesAt(line: string, p: nat, q: nat) {
    OccursAt(line, Prefix, p) && p + 2 <= q && OccursAt(line, Suffix, q)
  }

  /** The group the search captures: from the first "_ to the last closing
      text after it. */
  function Capture(line: string): Option<string> {
    match Find(line, Prefix)
    case None => None
    case Some(p) =>
      match FindLastBelow(line, Suffix, p + 2, |line| + 1)
      case None => None
      case Some(q) => Some(line[p + 2..q])
  }

  /** The search finds a match exactly when the pattern matches somewhere,
      and then captures the match that starts leftmost and, among those, the
      longest one. */
  lemma CaptureSpec(line: string)
    ensures Capture(line).Some? <==> exists p: nat, q: nat :: MatchesAt(line, p, q)
    ensures Capture(line).Some? ==> exists p: nat, q: nat :: (MatchesAt(line, p, q) && Capture(line).value == line[p + 2..q] &&
      forall p': nat, q': nat :: MatchesAt(line, p', q') ==> p < p' || (p == p' && q' <= q))
  {
    match Find(line, Prefix)
    case None =>
    case Some(p) =>
      match FindLastBelow(line, Suffix, p + 2, |line| + 1)
      case None =>
      case Some(q) =>
        assert MatchesAt(line, p, q);
  }

  /** The captures of the matching lines, in line order. */
  function Captures(lines: seq<string>): seq<string> {
    if lines == [] then []
    else
      var c := Capture(lines[|lines| - 1]);
      Captures(lines[..|lines| - 1]) + (if c.Some? then [c.value] else [])
  }

  /** The names are collected line by line: the captures of two runs of
      lines follow each other. */
  lemma {:induction false} CapturesAppend(a: seq<string>, b: seq<string>)
    ensures Captures(a + b) == Captures(a) + Captures(b)
    decreases |b|
  {
    if b == [] {
      assert a + b == a;
    } else {
      var b' := b[..|b| - 1];
      CapturesAppend(a, b');
      assert (a + b)[..|a + b| - 1] == a + b';
    }
  }

  /** A name is collected exactly when some line captures it. */
  lemma {:induction false} CapturesSpec(lines: seq<string>, n: string)
    ensures n in Captures(lines) <==> exists i :: 0 <= i < |lines| && Capture(lines[i]) == Some(n)
  {
    if lines != [] {
      var init := lines[..|lines| - 1];
      CapturesSpec(init, n);
      assert forall i :: 0 <= i < |init| ==> init[i] == lines[i];
    }
  }

  /** detect_missing_definitions: the captured names of the linker's output,
      line by line. */
  method DetectMissingDefinitions(output: string) returns (missing: seq<string>)
    ensures missing == Captures(Split(output, '\n'))
  {
    missing := [];
    var lines := Split(output, '\n');
    var i := 0;
    while i < |lines|
      invariant i <= |lines| && missing == Captures(lines[..i])
    {
      assert lines[..i + 1][..i] == lines[..i];
      var m := Capture(lines[i]);
      if m.Some? {
        missing := missing + [m.value];
      }
      i := i + 1;
    }
    assert lines[..i] == lines;
  }

  // ---- the recorded values ----

  /** The fields of a trace line: the line without surrounding whitespace,
      split at ','. */
  function Fields(line: string): seq<string> {
    Split(Strip(line), ',')
  }

  /** Values recorded by the front end's nondeterminism functions are
      reported under the verifier's name for them. */
  function Renamed(fn: string): string {
    Replace(fn, "SMACK_nondet", "VERIFIER_nondet")
  }

  /** aggregate_values on the lines read so far: each line adds its value at
      the end of its (renamed) key's list; a line without exactly two fields
      stops everything. */
  function Aggregated(lines: seq<string>): Result<Dict<seq<string>>> {
    if lines == [] then Ok([])
    else
      match Aggregated(lines[..|lines| - 1])
      case Fail(e) => Fail(e)
      case Ok(d) =>
        var fields := Fields(lines[|lines| - 1]);
        if |fields| != 2 then Fail(MalformedLine(|lines| - 1))
        else
          var fn := Renamed(fields[0]);
          Ok(Put(d, fn, GetOr(d, fn, []) + [fields[1]]))
  }

  /** Once a prefix of the lines fails, so do all the lines, the same way. */
  lemma {:induction false} AggregatedFailureStays(lines: seq<string>, i: nat)
    requires i <= |lines| && Aggregated(lines[..i]).Fail?
    ensures Aggregated(lines) == Aggregated(lines[..i])
    decreases |lines|
  {
    if i < |lines| {
      var init := lines[..|lines| - 1];
      assert init[..i] == lines[..i];
      AggregatedFailureStays(init, i);
    } else {
      assert lines[..i] == lines;
    }
  }

  /** aggregate_values. */
  method AggregateValues(lines: seq<string>) returns (r: Result<Dict<seq<string>>>)
    ensures r == Aggregated(lines)
  {
    var dict: Dict<seq<string>> := [];
    var i := 0;
    while i < |lines|
      invariant i <= |lines| && Aggregated(lines[..i]) == Ok(dict)
    {
      assert lines[..i + 1][..i] == lines[..i];
      var fields := Split(Strip(lines[i]), ',');
      if |fields| != 2 {
        AggregatedFailureStays(lines, i + 1);
        return Fail(MalformedLine(i));
      }
      var fn := Replace(fields[0], "SMACK_nondet", "VERIFIER_nondet");
      // the list for fn, a new empty one the first time fn is seen
      var vals := GetOr(dict, fn, []);
      dict := Put(dict, fn, vals + [fields[1]]);
      i := i + 1;
    }
    assert lines[..i] == lines;
    return Ok(dict);
  }

  /** The lines fail exactly when one of them does not have two fields. */
  lemma {:induction false} AggregatedFails(lines: seq<string>)
    ensures Aggregated(lines).Fail? <==> exists i :: 0 <= i < |lines| && |Fields(lines[i])| != 2
  {
    if lines != [] {
      var init := lines[..|lines| - 1];
      var n := |lines| - 1;
      AggregatedFails(init);
      if Aggregated(init).Fail? {
        assert Aggregated(lines).Fail?;
        var i :| 0 <= i < |init| && |Fields(init[i])| != 2;
        assert lines[i] == init[i];
      } else if |Fields(lines[n])| != 2 {
        assert Aggregated(lines).Fail?;
      } else {
        assert Aggregated(lines).Ok?;
        forall i | 0 <= i < |lines|
          ensures |Fields(lines[i])| == 2
        {
          if i < n {
            assert lines[i] == init[i];
          } else {
            assert i == n;
          }
        }
      }
    }
  }

  /** A failure names the first line without two fields. */
  lemma {:induction false} AggregatedFailsFirst(lines: seq<string>)
    requires Aggregated(lines).Fail?
    ensures var e := Aggregated(lines).error;
      e.MalformedLine? && e.index < |lines| && |Fields(lines[e.index])| != 2 &&
      forall j :: 0 <= j < e.index ==> |Fields(lines[j])| == 2
  {
    var n := |lines| - 1;
    var init := lines[..n];
    if Aggregated(init).Fail? {
      assert Aggregated(lines) == Aggregated(init);
      AggregatedFailsFirst(init);
      var e := Aggregated(init).error;
      assert lines[e.index] == init[e.index];
      forall j | 0 <= j < e.index
        ensures |Fields(lines[j])| == 2
      {
        assert lines[j] == init[j];
      }
    } else {
      assert |Fields(lines[n])| != 2 && Aggregated(lines) == Fail(MalformedLine(n));
      AggregatedFails(init);
      forall j | 0 <= j < n
        ensures |Fields(lines[j])| == 2
      {
        assert lines[j] == init[j];
      }
    }
  }

  /** The values the lines record under key k, in line order. */
  function ValuesFor(lines: seq<string>, k: string): seq<string> {
    if lines == [] then []
    else
      var fields := Fields(lines[|lines| - 1]);
      ValuesFor(lines[..|lines| - 1], k) + (if |fields| == 2 && Renamed(fields[0]) == k then [fields[1]] else [])
  }

  /** What aggregate_values gathers: every key once, each key's values in
      line order, a key exactly when some line records a value for it, and
      as many values in all as there are lines. */
  lemma {:induction false} AggregatedValues(lines: seq<string>)
    requires Aggregated(lines).Ok?
    ensures var d := Aggregated(lines).value;
      Distinct(Keys(d)) && Total(d) == |lines| &&
      forall k :: GetOr(d, k, []) == ValuesFor(lines, k) && (k in Keys(d) <==> ValuesFor(lines, k) != [])
  {
    if lines != [] {
      var init := lines[..|lines| - 1];
      AggregatedValues(init);
      var d := Aggregated(init).value;
      var fields := Fields(lines[|lines| - 1]);
      var fn := Renamed(fields[0]);
      var v := GetOr(d, fn, []) + [fields[1]];
      TotalPut(d, fn, v);
      PutDistinct(d, fn, v);
      forall k
        ensures GetOr(Put(d, fn, v), k, []) == ValuesFor(lines, k)
        ensures k in Keys(Put(d, fn, v)) <==> ValuesFor(lines, k) != []
      {
        if k != fn {
          assert Get(Put(d, fn, v), k) == Get(d, k);
        }
      }
    }
  }

  /** Every list aggregate_values gathers holds at least one value. */
  lemma AggregatedNonEmpty(lines: seq<string>)
    requires Aggregated(lines).Ok?
    ensures forall i :: 0 <= i < |Aggregated(lines).value| ==> Aggregated(lines).value[i].1 != []
  {
    var d := Aggregated(lines).value;
    AggregatedValues(lines);
    forall i | 0 <= i < |d|
      ensures d[i].1 != []
    {
      GetEntry(d, i);
      assert d[i].0 in Keys(d);
    }
  }

  // ---- the kinds of keys ----

  /** A recorded key: a return value of function fn, an argument arg of the
      entry point fn, one to skip, or one whose parts do not fit its kind. */
  datatype KeyKind = Ext(fn: string) | Arg(fn: string, arg: string) | Other | Malformed

  /** The kind of a key. "ext:" is looked for first; a return value key has
      two parts at ':', an argument key three. */
  function KindOf(key: string): KeyKind {
    if Contains(key, "ext:") then
      var parts := Split(key, ':');
      if |parts| == 2 then Ext(parts[1]) else Malformed
    else if Contains(key, "arg:") then
      var parts := Split(key, ':');
      if |parts| == 3 then Arg(parts[1], parts[2]) else Malformed
    else Other
  }

  /** The kinds in terms of the key's text: "ext:" in the key and one ':'
      make a return value key, otherwise "arg:" and two ':' an argument key,
      and the names are the ':'-free pieces after the first ':'. */
  lemma KindOfSpec(key: string)
    ensures KindOf(key).Ext? <==> Contains(key, "ext:") && Count(key, ':') == 1
    ensures KindOf(key).Arg? <==> !Contains(key, "ext:") && Contains(key, "arg:") && Count(key, ':') == 2
    ensures KindOf(key) == Other <==> !Contains(key, "ext:") && !Contains(key, "arg:")
    ensures KindOf(key).Ext? ==>
      ':' !in KindOf(key).fn && key == Split(key, ':')[0] + ":" + KindOf(key).fn
    ensures KindOf(key).Arg? ==>
      ':' !in KindOf(key).fn && ':' !in KindOf(key).arg &&
      key == Split(key, ':')[0] + ":" + KindOf(key).fn + ":" + KindOf(key).arg
  {
    var parts := Split(key, ':');
    SplitCount(key, ':');
    JoinSplit(key, ':');
    if |parts| == 3 {
      assert parts[..2][..1] == parts[..1];
    }
  }

  // ---- stub_module ----

  /** The two tables stub_module fills: the return values per function, and
      the argument values per entry point and argument. */
  datatype Tables = Tables(returnValues: Dict<seq<string>>, arguments: Dict<Dict<string>>)

  /** The tables after the given entries of the recorded values. */
  function Classified(items: Dict<seq<string>>): Result<Tables> {
    if items == [] then Ok(Tables([], []))
    else
      match Classified(items[..|items| - 1])
      case Fail(e) => Fail(e)
      case Ok(t) =>
        var (key, vals) := items[|items| - 1];
        match KindOf(key)
        case Ext(fn) => Ok(t.(returnValues := Put(t.returnValues, fn, vals)))
        case Arg(fn, arg) =>
          if vals == [] then Fail(NoValue(key))
          else Ok(t.(arguments := Put(t.arguments, fn, Put(GetOr(t.arguments, fn, []), arg, vals[0]))))
        case Other => Ok(t)
        case Malformed => Fail(MalformedKey(key))
  }

  /** Once a prefix of the entries fails, so do all the entries. */
  lemma {:induction false} ClassifiedFailureStays(items: Dict<seq<string>>, i: nat)
    requires i <= |items| && Classified(items[..i]).Fail?
    ensures Classified(items) == Classified(items[..i])
    decreases |items|
  {
    if i < |items| {
      var init := items[..|items| - 1];
      assert init[..i] == items[..i];
      ClassifiedFailureStays(init, i);
    } else {
      assert items[..i] == items;
    }
  }

  /** An entry stub_module gives up on. */
  predicate Rejected(item: (string, seq<string>)) {
    KindOf(item.0) == Malformed || (KindOf(item.0).Arg? && item.1 == [])
  }

  /** The error an entry it gives up on raises. */
  function RejectionOf(item: (string, seq<string>)): Error {
    if KindOf(item.0) == Malformed then MalformedKey(item.0) else NoValue(item.0)
  }

  /** The classification fails exactly when some entry is rejected, and then
      with the first rejected entry's error. */
  lemma {:induction false} ClassifiedFails(items: Dict<seq<string>>)
    ensures Classified(items).Fail? <==> exists i :: 0 <= i < |items| && Rejected(items[i])
    ensures Classified(items).Fail? ==> exists i :: (0 <= i < |items| && Rejected(items[i]) &&
      Classified(items).error == RejectionOf(items[i]) && forall j :: 0 <= j < i ==> !Rejected(items[j]))
  {
    if items != [] {
      var init := items[..|items| - 1];
      ClassifiedFails(init);
      assert forall i :: 0 <= i < |init| ==> init[i] == items[i];
    }
  }

  /** The values of the last entry that is a return value key of fn. */
  function LastExt(items: Dict<seq<string>>, fn: string): Option<seq<string>> {
    if items == [] then None
    else if KindOf(items[|items| - 1].0) == Ext(fn) then Some(items[|items| - 1].1)
    else LastExt(items[..|items| - 1], fn)
  }

  /** The first value of the last entry that is an argument key of fn and
      arg. */
  function LastArg(items: Dict<seq<string>>, fn: string, arg: string): Option<string> {
    if items == [] then None
    else if KindOf(items[|items| - 1].0) == Arg(fn, arg) && items[|items| - 1].1 != [] then
      Some(items[|items| - 1].1[0])
    else LastArg(items[..|items| - 1], fn, arg)
  }

  /** Some entry is an argument key of fn. */
  predicate HasArgs(items: Dict<seq<string>>, fn: string) {
    exists i :: 0 <= i < |items| && KindOf(items[i].0).Arg? && KindOf(items[i].0).fn == fn
  }

  /** The return value table: every function once, with the values of the
      last return value key for it (a later key overrides an earlier one). */
  lemma {:induction false} ClassifiedReturnValues(items: Dict<seq<string>>)
    requires Classified(items).Ok?
    ensures var rv := Classified(items).value.returnValues;
      Distinct(Keys(rv)) && forall fn :: Get(rv, fn) == LastExt(items, fn)
  {
    if items != [] {
      var init := items[..|items| - 1];
      ClassifiedReturnValues(init);
      var t := Classified(init).value;
      var (key, vals) := items[|items| - 1];
      if KindOf(key).Ext? {
        PutDistinct(t.returnValues, KindOf(key).fn, vals);
      }
    }
  }

  /** The argument table holds an entry point exactly when some key names an
      argument of it, and each once. */
  lemma {:induction false} ClassifiedEntryPoints(items: Dict<seq<string>>)
    requires Classified(items).Ok?
    ensures var args := Classified(items).value.arguments;
      Distinct(Keys(args)) && forall fn :: fn in Keys(args) <==> HasArgs(items, fn)
  {
    if items != [] {
      var init := items[..|items| - 1];
      ClassifiedEntryPoints(init);
      var t := Classified(init).value;
      var (key, vals) := items[|items| - 1];
      forall fn
        ensures HasArgs(items, fn) <==> HasArgs(init, fn) || (KindOf(key).Arg? && KindOf(key).fn == fn)
      {
        if HasArgs(init, fn) {
          var i :| 0 <= i < |init| && KindOf(init[i].0).Arg? && KindOf(init[i].0).fn == fn;
          assert items[i] == init[i];
        }
        if HasArgs(items, fn) {
          var i :| 0 <= i < |items| && KindOf(items[i].0).Arg? && KindOf(items[i].0).fn == fn;
          if i < |init| {
            assert items[i] == init[i];
          }
        }
      }
      if KindOf(key).Arg? {
        var fn := KindOf(key).fn;
        PutDistinct(t.arguments, fn, Put(GetOr(t.arguments, fn, []), KindOf(key).arg, vals[0]));
      }
    }
  }

  /** Each argument of each entry point holds the first value of the last
      key for it. */
  lemma {:induction false} ClassifiedArguments(items: Dict<seq<string>>)
    requires Classified(items).Ok?
    ensures var args := Classified(items).value.arguments;
      forall fn, arg :: Get(GetOr(args, fn, []), arg) == LastArg(items, fn, arg)
  {
    if items != [] {
      var init := items[..|items| - 1];
      ClassifiedArguments(init);
    }
  }

  /** set(missing) - set(SPECIAL_NAMES): the undefined names that are not
      special, each once, in order of first mention. */
  function Candidates(missing: seq<string>): (r: seq<string>)
    ensures forall n :: n in r <==> n in missing && n !in SpecialNames
    ensures Distinct(r)
  {
    if missing == [] then []
    else
      var c := Candidates(missing[..|missing| - 1]);
      var n := missing[|missing| - 1];
      assert missing == missing[..|missing| - 1] + [n];
      if n in c || n in SpecialNames then c else c + [n]
  }

  /** The names among names that have recorded return values. */
  function Stubbed(names: seq<string>, returnValues: Dict<seq<string>>): (r: seq<string>)
    ensures forall n :: n in r <==> n in names && n in Keys(returnValues)
    ensures Distinct(names) ==> Distinct(r)
  {
    if names == [] then []
    else
      var s := Stubbed(names[..|names| - 1], returnValues);
      var n := names[|names| - 1];
      assert names == names[..|names| - 1] + [n];
      if n in Keys(returnValues) then s + [n] else s
  }

  /** The head of the generated file: a comment and the harness's own
      definitions of the verifier's assert and assume. */
  const Header: string :=
    "//\n" +
    "// This file was automatically generated from a Boogie error trace.\n" +
    "// It contains stubs for unspecified functions that were called in that trace.\n" +
    "// These stubs will return the same values they did in the error trace.\n" +
    "// This file can be linked with the source program to reproduce the error.\n" +
    "//\n" +
    "#include <stdlib.h>\n" +
    "#include <stdio.h>\n" +
    "\n" +
    "void __VERIFIER_assert(int b) {\n" +
    "  if (!b)\n" +
    "    printf(\"error reached!\\n\");\n" +
    "    exit(0);\n" +
    "}\n" +
    "\n" +
    "void __VERIFIER_assume(int b) {\n" +
    "  if (!b) {\n" +
    "    printf(\"assumption does not hold.\\n\");\n" +
    "    exit(-1);\n" +
    "  }\n" +
    "}\n"

  /** The stub of function fn: a table of the values, an index into it, and
      a function returning one value per call. */
  function Stub(fn: string, vals: string): string {
    "// stub for function: " + fn + "\n" +
    "int " + fn + "$table[] = {" + vals + "};\n" +
    "int " + fn + "$idx = 0;\n" +
    "\n" +
    "int " + fn + "() {\n" +
    "  return " + fn + "$table[" + fn + "$idx++];\n" +
    "}\n"
  }

  /** The entry point wrapper calling fn with the argument values. */
  function Wrapper(fn: string, vals: string): string {
    "// entry point wrapper\n" +
    "int smack_replay_main() {\n" +
    "  " + fn + "(" + vals + ");\n" +
    "  return 0;\n" +
    "}\n"
  }

  /** The stub for fn, its recorded values joined by ", ". */
  function StubFor(fn: string, returnValues: Dict<seq<string>>): string {
    Stub(fn, Join(GetOr(returnValues, fn, []), ", "))
  }

  /** The stubs for the names that have recorded return values, in order. */
  function Stubs(names: seq<string>, returnValues: Dict<seq<string>>): (r: seq<string>)
    ensures var s := Stubbed(names, returnValues);
      |r| == |s| && forall i :: 0 <= i < |r| ==> r[i] == StubFor(s[i], returnValues)
  {
    if names == [] then []
    else
      var n := names[|names| - 1];
      Stubs(names[..|names| - 1], returnValues) + (if n in Keys(returnValues) then [StubFor(n, returnValues)] else [])
  }

  /** One wrapper per entry point, its argument values joined by ", ". */
  function Wrappers(arguments: Dict<Dict<string>>): (r: seq<string>)
    ensures |r| == |arguments|
    ensures forall i :: 0 <= i < |r| ==> r[i] == Wrapper(arguments[i].0, Join(Values(arguments[i].1), ", "))
  {
    if arguments == [] then []
    else
      var (fn, args) := arguments[|arguments| - 1];
      Wrappers(arguments[..|arguments| - 1]) + [Wrapper(fn, Join(Values(args), ", "))]
  }

  /** The pieces of the generated file: the header, the stubs, the
      wrappers. */
  function Code(t: Tables, missing: seq<string>): seq<string> {
    [Header] + Stubs(Candidates(missing), t.returnValues) + Wrappers(t.arguments)
  }

  /** stub_module's result: the pieces joined by newlines. */
  function StubModuleText(items: Dict<seq<string>>, missing: seq<string>): Result<string> {
    match Classified(items)
    case Fail(e) => Fail(e)
    case Ok(t) => Ok(Join(Code(t, missing), "\n"))
  }

  /** The first loop of stub_module: the tables filled from the entries. */
  method Classify(items: Dict<seq<string>>) returns (r: Result<Tables>)
    ensures r == Classified(items)
  {
    var returnValues: Dict<seq<string>> := [];
    var arguments: Dict<Dict<string>> := [];
    var i := 0;
    while i < |items|
      invariant i <= |items| && Classified(items[..i]) == Ok(Tables(returnValues, arguments))
    {
      assert items[..i + 1][..i] == items[..i];
      var (key, vals) := items[i];
      if Contains(key, "ext:") {
        var parts := Split(key, ':');
        if |parts| != 2 {
          ClassifiedFailureStays(items, i + 1);
          return Fail(MalformedKey(key));
        }
        returnValues := Put(returnValues, parts[1], vals);
      } else if Contains(key, "arg:") {
        var parts := Split(key, ':');
        if |parts| != 3 {
          ClassifiedFailureStays(items, i + 1);
          return Fail(MalformedKey(key));
        }
        var fn, arg := parts[1], parts[2];
        if vals == [] {
          ClassifiedFailureStays(items, i + 1);
          return Fail(NoValue(key));
        }
        arguments := Put(arguments, fn, Put(GetOr(arguments, fn, []), arg, vals[0]));
      }
      i := i + 1;
    }
    assert items[..i] == items;
    return Ok(Tables(returnValues, arguments));
  }

  /** The second loop of stub_module: a stub for every candidate that has
      recorded return values. */
  method AddStubs(code: seq<string>, candidates: seq<string>, returnValues: Dict<seq<string>>)
    returns (code': seq<string>)
    ensures code' == code + Stubs(candidates, returnValues)
  {
    code' := code;
    var j := 0;
    while j < |candidates|
      invariant j <= |candidates| && code' == code + Stubs(candidates[..j], returnValues)
    {
      assert candidates[..j + 1][..j] == candidates[..j];
      var fn := candidates[j];
      if fn in Keys(returnValues) {
        code' := code' + [Stub(fn, Join(GetOr(returnValues, fn, []), ", "))];
      }
      j := j + 1;
    }
    assert candidates[..j] == candidates;
  }

  /** The third loop of stub_module: a wrapper for every entry point. */
  method AddWrappers(code: seq<string>, arguments: Dict<Dict<string>>) returns (code': seq<string>)
    ensures code' == code + Wrappers(arguments)
  {
    code' := code;
    var k := 0;
    while k < |arguments|
      invariant k <= |arguments| && code' == code + Wrappers(arguments[..k])
    {
      assert arguments[..k + 1][..k] == arguments[..k];
      var (fn, args) := arguments[k];
      code' := code' + [Wrapper(fn, Join(Values(args), ", "))];
      k := k + 1;
    }
    assert arguments[..k] == arguments;
  }

  /** stub_module. */
  method StubModule(items: Dict<seq<string>>, missing: seq<string>) returns (r: Result<string>)
    ensures r == StubModuleText(items, missing)
  {
    var tables := Classify(items);
    if tables.Fail? {
      return Fail(tables.error);
    }
    var code := [Header];
    code := AddStubs(code, Candidates(missing), tables.value.returnValues);
    code := AddWrappers(code, tables.value.arguments);
    return Ok(Join(code, "\n"));
  }

  /** Which stubs the file holds: one for each undefined name that is not
      special and has a return value key, each once, with the values of the
      last such key. */
  lemma StubsEmitted(items: Dict<seq<string>>, missing: seq<string>)
    requires Classified(items).Ok?
    ensures var t := Classified(items).value;
      var s := Stubbed(Candidates(missing), t.returnValues);
      Distinct(s) &&
      (forall fn :: fn in s <==> fn in missing && fn !in SpecialNames && LastExt(items, fn).Some?) &&
      forall fn :: fn in s ==> StubFor(fn, t.returnValues) == Stub(fn, Join(LastExt(items, fn).value, ", "))
  {
    ClassifiedReturnValues(items);
  }

  /** Values gathered by aggregate_values never make stub_module fail for
      want of a value; only a malformed key can. */
  lemma AggregatedKeysOnly(lines: seq<string>, missing: seq<string>)
    requires Aggregated(lines).Ok?
    ensures StubModuleText(Aggregated(lines).value, missing).Fail? ==>
      StubModuleText(Aggregated(lines).value, missing).error.MalformedKey?
  {
    var d := Aggregated(lines).value;
    AggregatedNonEmpty(lines);
    ClassifiedFails(d);
  }
}
