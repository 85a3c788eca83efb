// The two patterns the rewriting of hand-written Boogie procedures relies on,
// written out as predicates over the text. Both are POSIX extended regular
// expressions in the C locale:
//
//   PROC_DECL  a whole procedure declaration, split into a header group (up
//              to the body) and a body group ('{' ... '}' and trailing blanks);
//   MOD_CL     a modifies clause anywhere in the text: the keyword, blanks,
//              and a comma-separated list of names ending in ';'.
//
// Inside a bracket expression a backslash stands for itself, so the classes
// "[^\(]", "[^\)]" and "[^\{]" exclude a backslash as well as the bracket.
module Patterns {
  import opened Text

  predicate IsAlpha(c: char) {
    'a' <= c <= 'z' || 'A' <= c <= 'Z'
  }

  predicate IsAlnum(c: char) {
    IsAlpha(c) || '0' <= c <= '9'
  }

  /** The punctuation Boogie allows in identifiers. */
  predicate IsNamePunct(c: char) {
    c in "_.$#'`^?"
  }

  predicate IsNameStart(c: char) {
    IsAlpha(c) || IsNamePunct(c)
  }

  predicate IsNameChar(c: char) {
    IsAlnum(c) || IsNamePunct(c)
  }

  /** A whole Boogie identifier. */
  predicate IsName(n: string) {
    |n| >= 1 && IsNameStart(n[0]) && forall k :: 1 <= k < |n| ==> IsNameChar(n[k])
  }

  predicate SpacesIn(s: string, lo: nat, hi: nat)
    requires lo <= hi <= |s|
  {
    forall k :: lo <= k < hi ==> IsSpace(s[k])
  }

  /** No character of s[lo..hi] is c or a backslash. */
  predicate AvoidsIn(s: string, lo: nat, hi: nat, c: char)
    requires lo <= hi <= |s|
  {
    forall k :: lo <= k < hi ==> s[k] != c && s[k] != '\\'
  }

  /** s[lo..hi] is an identifier. */
  predicate NameIn(s: string, lo: nat, hi: nat)
    requires lo <= hi <= |s|
  {
    lo < hi && IsNameStart(s[lo]) && forall k :: lo < k < hi ==> IsNameChar(s[k])
  }

  // ---- PROC_DECL ----

  /** The header group of PROC_DECL is s[..p]: blanks up to a, the keyword
      "procedure", at least one blank (up to b), anything without '(' (up to
      c), the procedure's name (c .. d), blanks (up to e), '(' at e, anything
      without ')' up to the ')' at f, and anything without '{' up to p. */
  predicate HeaderAt(s: string, p: nat, a: nat, b: nat, c: nat, d: nat, e: nat, f: nat) {
    && a + 9 < b <= c < d <= e < f < p <= |s|
    && SpacesIn(s, 0, a)
    && s[a..a + 9] == "procedure"
    && SpacesIn(s, a + 9, b)
    && AvoidsIn(s, b, c, '(')
    && NameIn(s, c, d)
    && SpacesIn(s, d, e)
    && s[e] == '('
    && AvoidsIn(s, e + 1, f, ')')
    && s[f] == ')'
    && AvoidsIn(s, f + 1, p, '{')
  }

  /** The body group of PROC_DECL is s[p..]: '{', anything, the '}' at q, and
      blanks to the end. */
  predicate BodyAt(s: string, p: nat, q: nat) {
    p < q < |s| && s[p] == '{' && s[q] == '}' && SpacesIn(s, q + 1, |s|)
  }

  /** PROC_DECL matches s with the header group ending at p. */
  predicate SplitsAt(s: string, p: nat) {
    && p <= |s|
    && (exists a, b, c, d, e, f | 0 <= a <= p && 0 <= b <= p && 0 <= c <= p && 0 <= d <= p && 0 <= e <= p && 0 <= f <= p ::
          HeaderAt(s, p, a, b, c, d, e, f))
    && (exists q | p < q < |s| :: BodyAt(s, p, q))
  }

  /** PROC_DECL matches s. */
  predicate IsProcDecl(s: string) {
    exists p | 0 <= p <= |s| :: SplitsAt(s, p)
  }

  /** The landmarks of a split at p: the keyword at a, after blanks only;
      the first '(' after the keyword at e; the first ')' after it at f; and
      the first '{' after that at p. */
  lemma Landmarks(s: string, p: nat) returns (a: nat, e: nat, f: nat)
    requires SplitsAt(s, p)
    ensures a + 9 <= e < f < p < |s|
    ensures SpacesIn(s, 0, a) && !IsSpace(s[a])
    ensures s[e] == '(' && forall k :: a + 9 <= k < e ==> s[k] != '('
    ensures s[f] == ')' && forall k :: e < k < f ==> s[k] != ')'
    ensures s[p] == '{' && forall k :: f < k < p ==> s[k] != '{'
  {
    var b, c, d;
    a, b, c, d, e, f :| HeaderAt(s, p, a, b, c, d, e, f);
    HeaderLandmarks(s, p, a, b, c, d, e, f);
    var q :| BodyAt(s, p, q);
  }

  lemma HeaderLandmarks(s: string, p: nat, a: nat, b: nat, c: nat, d: nat, e: nat, f: nat)
    requires HeaderAt(s, p, a, b, c, d, e, f)
    ensures a + 9 <= e < f < p <= |s|
    ensures SpacesIn(s, 0, a) && !IsSpace(s[a])
    ensures s[e] == '(' && forall k :: a + 9 <= k < e ==> s[k] != '('
    ensures s[f] == ')' && forall k :: e < k < f ==> s[k] != ')'
    ensures forall k :: f < k < p ==> s[k] != '{'
  {
    assert s[a] == s[a..a + 9][0];
  }

  /** Two positions that both hold the first c at or after lo are one. */
  lemma FirstOf(s: string, lo: nat, x: nat, y: nat, c: char)
    requires lo <= x < |s| && lo <= y < |s| && s[x] == c && s[y] == c
    requires forall k :: lo <= k < x ==> s[k] != c
    requires forall k :: lo <= k < y ==> s[k] != c
    ensures x == y
  {
  }

  /** The header group is well defined: PROC_DECL splits a text in at most
      one place, at the first '{' after the first ')' after the first '('
      after the keyword. */
  lemma SplitUnique(s: string, p: nat, p': nat)
    requires SplitsAt(s, p) && SplitsAt(s, p')
    ensures p == p'
  {
    var a, e, f := Landmarks(s, p);
    var a', e', f' := Landmarks(s, p');
    assert a == a';
    FirstOf(s, a + 9, e, e', '(');
    FirstOf(s, e + 1, f, f', ')');
    FirstOf(s, f + 1, p, p', '{');
  }

  /** Any two splits of a text agree. */
  lemma SplitsAgree(s: string)
    ensures forall p, p' :: SplitsAt(s, p) && SplitsAt(s, p') ==> p == p'
  {
    forall p, p' | SplitsAt(s, p) && SplitsAt(s, p')
      ensures p == p'
    {
      SplitUnique(s, p, p');
    }
  }

  /** Where the header group of a procedure declaration ends. */
  function HeaderEnd(s: string): (p: nat)
    requires IsProcDecl(s)
    ensures SplitsAt(s, p) && p < |s| && s[p] == '{'
  {
    SplitsAgree(s);
    var p :| 0 <= p <= |s| && SplitsAt(s, p);
    p
  }

  // ---- MOD_CL ----

  /** The end of the run of blanks starting at i. */
  function SkipSpaces(s: string, i: nat): (j: nat)
    requires i <= |s|
    ensures i <= j <= |s| && SpacesIn(s, i, j) && (j == |s| || !IsSpace(s[j]))
    decreases |s| - i
  {
    if i < |s| && IsSpace(s[i]) then SkipSpaces(s, i + 1) else i
  }

  /** The end of the run of identifier characters starting at i. */
  function SkipNameChars(s: string, i: nat): (j: nat)
    requires i <= |s|
    ensures i <= j <= |s| && (forall k :: i <= k < j ==> IsNameChar(s[k])) && (j == |s| || !IsNameChar(s[j]))
    decreases |s| - i
  {
    if i < |s| && IsNameChar(s[i]) then SkipNameChars(s, i + 1) else i
  }

  /** The rest of a modifies list after a name that ends at i: either ';'
      right away, or blanks, a comma, blanks, another name and the rest
      again. Blanks may come before a comma but not before the ';'. Taking
      every blank and every identifier character loses no match: what must
      follow blanks here (',' or a name's first character) is never a blank,
      and what must follow a name (';', a blank or ',') is never an
      identifier character. */
  predicate ListRest(s: string, i: nat)
    requires i <= |s|
    decreases |s| - i
  {
    i < |s| &&
    (s[i] == ';' ||
     var j := SkipSpaces(s, i);
     j < |s| && s[j] == ',' &&
     var k := SkipSpaces(s, j + 1);
     k < |s| && IsNameStart(s[k]) && ListRest(s, SkipNameChars(s, k + 1)))
  }

  /** MOD_CL matches starting at position k. */
  predicate ModClauseAt(s: string, k: nat) {
    && OccursAt(s, "modifies", k)
    && var j := SkipSpaces(s, k + 8);
       j > k + 8 && j < |s| && IsNameStart(s[j]) && ListRest(s, SkipNameChars(s, j + 1))
  }

  /** MOD_CL matches somewhere in s. */
  predicate HasModClause(s: string) {
    exists k | 0 <= k <= |s| :: ModClauseAt(s, k)
  }

  /** Blanks may stand before a comma of a modifies list. */
  lemma ModClauseBlankBeforeComma()
    ensures HasModClause("modifies x , y;")
  {
    var good := "modifies x , y;";
    assert OccursAt(good, "modifies", 0);
    SkipSpacesAt(good, 8, 9);
    SkipNameCharsAt(good, 10, 10);
    SkipSpacesAt(good, 10, 11);
    SkipSpacesAt(good, 12, 13);
    SkipNameCharsAt(good, 14, 14);
    assert ListRest(good, 14);
    assert ModClauseAt(good, 0);
  }

  /** After a name, blanks followed by ';' do not end a modifies list. */
  lemma BlanksThenSemicolon(s: string, i: nat)
    requires i < |s| && IsSpace(s[i]) && SkipSpaces(s, i) < |s| && s[SkipSpaces(s, i)] == ';'
    ensures !ListRest(s, i)
  {
  }

  /** A blank before the ';' of a modifies list breaks the match. */
  lemma ModClauseNoBlankBeforeSemicolon()
    ensures !HasModClause("modifies x ;")
  {
    var bad := "modifies x ;";
    assert ModClauseAt(bad, 0) ==> ListRest(bad, 10) by {
      SkipSpacesAt(bad, 8, 9);
      SkipNameCharsAt(bad, 10, 10);
    }
    SkipSpacesAt(bad, 10, 11);
    BlanksThenSemicolon(bad, 10);
    forall k | 1 <= k <= |bad|
      ensures !OccursAt(bad, "modifies", k)
    {
      if k + 8 <= |bad| {
        assert bad[k..k + 8][0] == bad[k] != 'm';
      }
    }
  }

  lemma SkipSpacesAt(s: string, i: nat, j: nat)
    requires i <= j <= |s| && SpacesIn(s, i, j) && (j == |s| || !IsSpace(s[j]))
    ensures SkipSpaces(s, i) == j
  {
  }

  lemma SkipNameCharsAt(s: string, i: nat, j: nat)
    requires i <= j <= |s| && (forall k :: i <= k < j ==> IsNameChar(s[k])) && (j == |s| || !IsNameChar(s[j]))
    ensures SkipNameChars(s, i) == j
  {
  }
}
