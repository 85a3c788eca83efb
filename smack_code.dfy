// The text-level half of the modifies inference. SMACK's own procedures
// reach the program as raw Boogie text, so the clause naming the Boogie
// globals is built as text and spliced into the prelude and into every
// textual procedure declaration that has no modifies clause yet. These steps
// touch none of the pass's working state; they are methods over the program.
module SmackCode {
  import opened Ast
  import opened Text
  import opened Patterns
  import opened Ordered

  // ---- the clause ----

  /** What the clause loop appends for names visited in this order: a blank,
      the name and a comma, per name. */
  function Listed(names: seq<string>): string {
    if names == [] then [] else Listed(names[..|names| - 1]) + " " + names[|names| - 1] + ","
  }

  /** The clause for names visited in this order: "\nmodifies" and the list,
      its last character overwritten with ';', then a newline. */
  function ClauseText(names: seq<string>): string {
    var raw := "\nmodifies" + Listed(names);
    raw[..|raw| - 1] + ";\n"
  }

  lemma {:induction false} ListedJoined(names: seq<string>)
    requires names != []
    ensures Listed(names) == " " + Join(names, ", ") + ","
  {
    if |names| > 1 {
      var init := names[..|names| - 1];
      var last := names[|names| - 1];
      ListedJoined(init);
      calc {
        Listed(names);
        " " + Join(init, ", ") + "," + " " + last + ",";
        " " + (Join(init, ", ") + ", " + last) + ",";
        " " + Join(names, ", ") + ",";
      }
    } else {
      assert names[..0] == [];
    }
  }

  /** For a non-empty list the clause is the names joined by ", " between
      "\nmodifies " and ";\n"; for none, the ';' overwrites the keyword's
      last letter. */
  lemma ClauseTextJoined(names: seq<string>)
    ensures names != [] ==> ClauseText(names) == "\nmodifies " + Join(names, ", ") + ";\n"
    ensures names == [] ==> ClauseText(names) == "\nmodifie;\n"
  {
    if names != [] {
      ListedJoined(names);
      var raw := "\nmodifies" + Listed(names);
      assert raw == "\nmodifies " + Join(names, ", ") + ",";
      assert raw[..|raw| - 1] == "\nmodifies " + Join(names, ", ");
    }
  }

  /** The clause for the Boogie globals, visited in ascending order. */
  method ModifiesClause(bplGlobals: set<string>) returns (clause: string)
    ensures clause == ClauseText(Ascending(bplGlobals))
    ensures bplGlobals != {} ==> clause == "\nmodifies " + Join(Ascending(bplGlobals), ", ") + ";\n"
    ensures bplGlobals == {} ==> clause == "\nmodifie;\n"
  {
    var names := SortedElements(bplGlobals);
    clause := "\nmodifies";
    var i := 0;
    while i < |names|
      invariant i <= |names| && clause == "\nmodifies" + Listed(names[..i])
    {
      assert names[..i + 1][..i] == names[..i];
      clause := clause + " " + names[i] + ",";
      i := i + 1;
    }
    assert names[..i] == names;
    clause := clause[..|clause| - 1] + [';'];
    clause := clause + ['\n'];
    ClauseTextJoined(names);
    assert names == [] ==> Elems(names) == {};
    assert names != [] ==> names[0] in Elems(names);
  }

  // ---- the prelude ----

  /** The line after which the clause goes into the prelude. */
  const Marker: string := "procedure $global_allocations()\n"

  /** size_t is 64 bits wide; std::string::npos is its largest value. */
  const SizeMod: nat := 0x1_0000_0000_0000_0000
  const Npos: nat := SizeMod - 1

  /** fixPrelude as written. The position after the first marker is computed
      in size_t, so without a marker npos + |Marker| wraps round to
      |Marker| - 1; substr(pos) throws std::out_of_range (None) when pos is
      past the end. */
  function PreludeAsWritten(prelude: string, clause: string): Option<string> {
    var found := Find(prelude, Marker);
    var pos := ((if found.Some? then found.value else Npos) + |Marker|) % SizeMod;
    if pos <= |prelude| then Some(prelude[..pos] + clause + prelude[pos..]) else None
  }

  /** fixPrelude as intended: the clause right after the first marker. A
      prelude without the marker is a broken installation, and the intended
      pass stops there (None) instead of carrying on. */
  function FixedPrelude(prelude: string, clause: string): Option<string> {
    match Find(prelude, Marker)
    case Some(i) => Some(prelude[..i + |Marker|] + clause + prelude[i + |Marker|..])
    case None => None
  }

  /** Without the marker, the code as written carries on with the clause 31
      characters into the prelude, or throws when the prelude is shorter than
      that; the intended behaviour stops with an error either way. */
  lemma AsWrittenWithoutMarker(prelude: string, clause: string)
    requires !Contains(prelude, Marker)
    ensures |prelude| >= 31 ==> PreludeAsWritten(prelude, clause) == Some(prelude[..31] + clause + prelude[31..])
    ensures |prelude| < 31 ==> PreludeAsWritten(prelude, clause).None?
    ensures FixedPrelude(prelude, clause).None?
    ensures |prelude| >= 31 ==> PreludeAsWritten(prelude, clause) != FixedPrelude(prelude, clause)
  {
    assert (Npos + |Marker|) % SizeMod == 31;
  }

  /** With the marker present (and the prelude shorter than npos, as every
      std::string is) the code as written does what is intended. */
  lemma FixedAgreesWithMarker(prelude: string, clause: string)
    requires Contains(prelude, Marker) && |prelude| < Npos
    ensures PreludeAsWritten(prelude, clause) == FixedPrelude(prelude, clause)
  {
  }

  /** With the marker present, the clause sits right after its first
      occurrence: what comes before (the marker included) and after is kept,
      and taking the clause out gives the prelude back. */
  lemma FixedPreludeSplices(prelude: string, clause: string)
    requires Contains(prelude, Marker)
    ensures FixedPrelude(prelude, clause).Some?
    ensures exists i :: (0 <= i <= |prelude| - |Marker| && OccursAt(prelude, Marker, i) &&
      (forall j :: 0 <= j < i ==> !OccursAt(prelude, Marker, j)) &&
      var r := FixedPrelude(prelude, clause).value;
      var n := i + |Marker|;
      |r| == |prelude| + |clause| && r[..n] == prelude[..n] && r[n..n + |clause|] == clause &&
      r[n + |clause|..] == prelude[n..] && r[..n] + r[n + |clause|..] == prelude)
  {
    var i := Find(prelude, Marker).value;
    var r := FixedPrelude(prelude, clause).value;
    var n := i + |Marker|;
    assert r[..n] + r[n + |clause|..] == prelude[..n] + prelude[n..];
    assert prelude[..n] + prelude[n..] == prelude;
  }

  /** Splices the clause into the program's prelude, which must carry the
      marker. */
  method FixPrelude(program: Program, clause: string)
    requires Contains(program.prelude, Marker)
    modifies program`prelude
    ensures Some(program.prelude) == FixedPrelude(old(program.prelude), clause)
  {
    var found := Find(program.prelude, Marker);
    var pos := found.value + |Marker|;
    program.prelude := program.prelude[..pos] + clause + program.prelude[pos..];
  }

  // ---- the textual procedures ----

  /** A procedure declaration's text with the clause put between its header
      and its body. */
  function WithClause(text: string, clause: string): string
    requires IsProcDecl(text)
  {
    var p := HeaderEnd(text);
    text[..p] + clause + text[p..]
  }

  /** A declaration after the rewriting: a code declaration whose text is a
      procedure declaration without a modifies clause becomes a code
      declaration (text and name alike) with the clause between header and
      body; every other declaration is kept. */
  function Rewritten(d: Decl, clause: string): Decl {
    if d.CodeDecl? && IsProcDecl(d.name) && !HasModClause(d.name) then
      var text := WithClause(d.name, clause);
      CodeDecl(text, text)
    else d
  }

  /** Rewrites the textual procedure declarations of the program. */
  method AddModifiesToSmackProcs(program: Program, clause: string)
    modifies program`decls
    ensures |program.decls| == |old(program.decls)|
    ensures forall i :: 0 <= i < |program.decls| ==> program.decls[i] == Rewritten(old(program.decls)[i], clause)
  {
    ghost var before := program.decls;
    var i := 0;
    while i < |program.decls|
      invariant i <= |program.decls| == |before|
      invariant forall k :: 0 <= k < i ==> program.decls[k] == Rewritten(before[k], clause)
      invariant forall k :: i <= k < |program.decls| ==> program.decls[k] == before[k]
    {
      var decl := program.decls[i];
      if decl.CodeDecl? {
        if IsProcDecl(decl.name) && !HasModClause(decl.name) {
          var newStr := WithClause(decl.name, clause);
          program.decls := program.decls[i := CodeDecl(newStr, newStr)];
        }
      }
      assert program.decls[i] == Rewritten(before[i], clause);
      i := i + 1;
    }
  }

  /** The text-level steps: build the clause for the Boogie globals, splice
      it into the prelude, and into the textual procedures. */
  method GenSmackCodeModifies(program: Program, bplGlobals: set<string>)
    requires Contains(program.prelude, Marker)
    modifies program`prelude, program`decls
    ensures Some(program.prelude) == FixedPrelude(old(program.prelude), ClauseText(Ascending(bplGlobals)))
    ensures |program.decls| == |old(program.decls)|
    ensures forall i :: 0 <= i < |program.decls| ==>
      program.decls[i] == Rewritten(old(program.decls)[i], ClauseText(Ascending(bplGlobals)))
  {
    var modClause := ModifiesClause(bplGlobals);
    FixPrelude(program, modClause);
    AddModifiesToSmackProcs(program, modClause);
  }

  // ---- the clause is a modifies clause ----

  /** An identifier at i, followed by a character that cannot continue it. */
  lemma NameAt(w: string, i: nat, n: string)
    requires IsName(n) && i + |n| < |w| && w[i..i + |n|] == n && !IsNameChar(w[i + |n|])
    ensures IsNameStart(w[i]) && SkipNameChars(w, i + 1) == i + |n|
  {
    assert w[i] == w[i..i + |n|][0];
    forall k | i + 1 <= k < i + |n|
      ensures IsNameChar(w[k])
    {
      assert w[k] == w[i..i + |n|][k - i];
    }
    SkipNameCharsAt(w, i + 1, i + |n|);
  }

  /** A ';' ends a modifies list. */
  lemma ListRestEnds(w: string, m: nat)
    requires m < |w| && w[m] == ';'
    ensures ListRest(w, m)
  {
    SkipSpacesAt(w, m, m);
  }

  /** One unfolding of ListRest at a comma. */
  lemma ListRestAtComma(w: string, m: nat, i: nat)
    requires m < i < |w| && SkipSpaces(w, m) == m && w[m] == ',' && SkipSpaces(w, m + 1) == i
    requires IsNameStart(w[i]) && ListRest(w, SkipNameChars(w, i + 1))
    ensures ListRest(w, m)
  {
  }

  /** After a name ending at m: a comma, blanks and a name that starts
      another list rest. */
  lemma ListRestGoesOn(w: string, h: nat, m: nat, i: nat)
    requires h <= m < i < |w| && SkipNameChars(w, h) == m
    requires w[m] == ',' && SpacesIn(w, m + 1, i) && IsNameStart(w[i])
    requires ListRest(w, SkipNameChars(w, i + 1))
    ensures ListRest(w, SkipNameChars(w, h))
  {
    SkipSpacesAt(w, m, m);
    SkipSpacesAt(w, m + 1, i);
    ListRestAtComma(w, m, i);
  }

  /** An identifier closed by ';' is the whole rest of a modifies list. */
  lemma LastName(w: string, i: nat, n: string)
    requires IsName(n) && i + |n| < |w| && w[i..i + |n|] == n && w[i + |n|] == ';'
    ensures IsNameStart(w[i]) && ListRest(w, SkipNameChars(w, i + 1))
  {
    NameAt(w, i, n);
    ListRestEnds(w, i + |n|);
  }

  /** A piece of a text found at h is found at h plus the piece's offset. */
  lemma Within(w: string, h: nat, t: string, lo: nat, hi: nat)
    requires h + |t| <= |w| && w[h..h + |t|] == t && lo <= hi <= |t|
    ensures w[h + lo..h + hi] == t[lo..hi]
  {
    forall q | lo <= q < hi
      ensures w[h + q] == t[q]
    {
      assert w[h + q] == w[h..h + |t|][q];
    }
    assert w[h + lo..h + hi] == t[lo..hi];
  }

  /** The pieces of an identifier, ", " and the rest of a list, found at i. */
  lemma CommaSlices(w: string, i: nat, m: nat, i': nat, n: string, j: string)
    requires m == i + |n| && i' == m + 2
    requires i' + |j| <= |w| && w[i..i' + |j|] == n + ", " + j
    ensures w[i..m] == n && w[m] == ',' && w[m + 1] == ' ' && w[i'..i' + |j|] == j
  {
    var t := n + ", " + j;
    var e: nat := |n| + 2;
    assert t[..|n|] == n && t[|n|] == ',' && t[|n| + 1] == ' ' && t[e..] == j;
    Within(w, i, t, 0, |n|);
    Within(w, i, t, |n|, |n| + 1);
    Within(w, i, t, |n| + 1, e);
    Within(w, i, t, e, |t|);
    assert w[m] == w[m..m + 1][0];
    assert w[m + 1] == w[m + 1..i'][0];
  }

  /** The pieces of a joined list of at least two identifiers found at i:
      the first identifier, ", " and the join of the rest, then ';'. */
  lemma JoinedPieces(w: string, i: nat, m: nat, i': nat, names: seq<string>)
    requires |names| >= 2 && m == i + |names[0]| && i' == m + 2
    requires var j := Join(names, ", "); i + |j| < |w| && w[i..i + |j|] == j && w[i + |j|] == ';'
    ensures var j' := Join(names[1..], ", ");
      i' + |j'| < |w| && w[i..m] == names[0] && w[m] == ',' && SpacesIn(w, m + 1, i') &&
      w[i'..i' + |j'|] == j' && w[i' + |j'|] == ';'
  {
    var n := names[0];
    var rest := names[1..];
    var j' := Join(rest, ", ");
    JoinCons(n, rest, ", ");
    assert names == [n] + rest;
    assert Join(names, ", ") == n + ", " + j';
    CommaSlices(w, i, m, i', n, j');
  }

  /** A list of identifiers joined by ", " and closed by ';' is the rest of a
      modifies list. */
  lemma {:induction false} JoinedListRest(w: string, i: nat, names: seq<string>)
    requires names != [] && forall k :: 0 <= k < |names| ==> IsName(names[k])
    requires var j := Join(names, ", "); i + |j| < |w| && w[i..i + |j|] == j && w[i + |j|] == ';'
    ensures IsNameStart(w[i]) && ListRest(w, SkipNameChars(w, i + 1))
    decreases |names|
  {
    var n := names[0];
    if |names| == 1 {
      LastName(w, i, n);
    } else {
      var m: nat := i + |n|;
      var i': nat := m + 2;
      JoinedPieces(w, i, m, i', names);
      NameAt(w, i, n);
      JoinedListRest(w, i', names[1..]);
      ListRestGoesOn(w, i + 1, m, i');
    }
  }

  /** The pieces of a clause found at position h, its keyword at k. */
  lemma ClauseSlices(w: string, h: nat, k: nat, j: string)
    requires k == h + 1
    requires h + |j| + 12 <= |w| && w[h..h + |j| + 12] == "\nmodifies " + j + ";\n"
    ensures w[k..k + 8] == "modifies" && w[k + 8] == ' '
    ensures w[k + 9..k + 9 + |j|] == j && w[k + 9 + |j|] == ';'
  {
    var t := "\nmodifies " + j + ";\n";
    var e: nat := 10 + |j|;
    assert t[1..9] == "modifies" && t[9] == ' ' && t[10..e] == j && t[e] == ';';
    Within(w, h, t, 1, 9);
    Within(w, h, t, 9, 10);
    Within(w, h, t, 10, e);
    Within(w, h, t, e, e + 1);
    assert w[k + 8] == w[h + 9..h + 10][0];
    assert w[k + 9 + |j|] == w[h + e..h + e + 1][0];
  }

  /** The clause made of identifiers is a modifies clause wherever it is
      spliced. */
  lemma ClauseMatches(x: string, names: seq<string>, y: string)
    requires names != [] && forall k :: 0 <= k < |names| ==> IsName(names[k])
    ensures HasModClause(x + ClauseText(names) + y)
  {
    ClauseTextJoined(names);
    var j := Join(names, ", ");
    var c := ClauseText(names);
    var w := x + c + y;
    var h: nat := |x|;
    var k: nat := h + 1;
    assert w[h..h + |c|] == c;
    ClauseSlices(w, h, k, j);
    KeywordAndList(w, k, names);
  }

  /** The keyword, one blank and a list of identifiers closed by ';' make a
      modifies clause. */
  lemma KeywordAndList(w: string, k: nat, names: seq<string>)
    requires names != [] && forall n :: 0 <= n < |names| ==> IsName(names[n])
    requires var j := Join(names, ", ");
      k + 9 + |j| < |w| && w[k..k + 8] == "modifies" && w[k + 8] == ' ' &&
      w[k + 9..k + 9 + |j|] == j && w[k + 9 + |j|] == ';'
    ensures ModClauseAt(w, k)
  {
    var i: nat := k + 9;
    JoinedListRest(w, i, names);
    SkipSpacesAt(w, k + 8, i);
  }

  /** Rewriting with a clause made of identifiers is idempotent: a rewritten
      procedure now has a modifies clause, so a second pass keeps it. */
  lemma RewriteIdempotent(d: Decl, names: seq<string>)
    requires names != [] && forall k :: 0 <= k < |names| ==> IsName(names[k])
    ensures Rewritten(Rewritten(d, ClauseText(names)), ClauseText(names)) == Rewritten(d, ClauseText(names))
  {
    if d.CodeDecl? && IsProcDecl(d.name) && !HasModClause(d.name) {
      var p := HeaderEnd(d.name);
      assert WithClause(d.name, ClauseText(names)) == d.name[..p] + ClauseText(names) + d.name[p..];
      ClauseMatches(d.name[..p], names, d.name[p..]);
    }
  }
}
