// The string operations the modelled code takes from its languages'
// libraries: std::string::find (C++), and str.split, str.join, str.strip,
// str.replace and the substring test `in` (Python). Strings are sequences of
// characters; positions are indices into them.
module Text {

  datatype Option<+T> = None | Some(value: T)

  /** isspace in the C locale, which is also what Python 2's str.strip()
      removes: space, tab, newline, vertical tab, form feed, carriage
      return. */
  predicate IsSpace(c: char) {
    c == ' ' || '\t' <= c <= '\r'
  }

  /** pat occurs in s starting at position i. */
  predicate OccursAt(s: string, pat: string, i: nat) {
    i + |pat| <= |s| && s[i..i + |pat|] == pat
  }

  /** Python's `pat in s`. */
  predicate Contains(s: string, pat: string) {
    exists i :: 0 <= i <= |s| && OccursAt(s, pat, i)
  }

  // ---- searching ----

  /** The first position at or after from where pat occurs, if any. */
  function FindFrom(s: string, pat: string, from: nat): (r: Option<nat>)
    ensures r.Some? ==>
      from <= r.value && OccursAt(s, pat, r.value) &&
      forall j :: from <= j < r.value ==> !OccursAt(s, pat, j)
    ensures r.None? ==> forall j :: from <= j ==> !OccursAt(s, pat, j)
    decreases |s| - from
  {
    if from + |pat| > |s| then None
    else if s[from..from + |pat|] == pat then Some(from)
    else FindFrom(s, pat, from + 1)
  }

  /** std::string::find: the first occurrence of pat in s (None stands for
      npos). */
  function Find(s: string, pat: string): (r: Option<nat>)
    ensures r.Some? <==> Contains(s, pat)
    ensures r.Some? ==> OccursAt(s, pat, r.value) && forall j :: 0 <= j < r.value ==> !OccursAt(s, pat, j)
  {
    var r := FindFrom(s, pat, 0);
    assert r.Some? ==> r.value <= |s|;
    r
  }

  /** The last position in lo .. hi - 1 where pat occurs, if any. */
  function FindLastBelow(s: string, pat: string, lo: nat, hi: nat): (r: Option<nat>)
    ensures r.Some? ==>
      lo <= r.value < hi && OccursAt(s, pat, r.value) &&
      forall j :: r.value < j < hi ==> !OccursAt(s, pat, j)
    ensures r.None? ==> forall j :: lo <= j < hi ==> !OccursAt(s, pat, j)
    decreases hi
  {
    if hi <= lo then None
    else if OccursAt(s, pat, hi - 1) then Some(hi - 1)
    else FindLastBelow(s, pat, lo, hi - 1)
  }

  // ---- split and join ----

  /** Python's sep.join(parts). */
  function Join(parts: seq<string>, sep: string): (r: string)
    ensures parts == [] ==> r == []
    ensures |parts| == 1 ==> r == parts[0]
  {
    if |parts| <= 1 then (if parts == [] then [] else parts[0])
    else Join(parts[..|parts| - 1], sep) + sep + parts[|parts| - 1]
  }

  /** Joining a first piece to the join of the rest. */
  lemma {:induction false} JoinCons(x: string, xs: seq<string>, sep: string)
    requires xs != []
    ensures Join([x] + xs, sep) == x + sep + Join(xs, sep)
    decreases |xs|
  {
    var ys := [x] + xs;
    if |xs| == 1 {
      assert ys[..1] == [x];
    } else {
      var init := xs[..|xs| - 1];
      JoinCons(x, init, sep);
      assert ys[..|ys| - 1] == [x] + init;
      assert Join(xs, sep) == Join(init, sep) + sep + xs[|xs| - 1];
    }
  }

  /** Python's s.split(sep) for a one-character separator: the pieces between
      the separators, one more than there are separators. */
  function Split(s: string, sep: char): (r: seq<string>)
    ensures |r| >= 1
    ensures forall k :: 0 <= k < |r| ==> sep !in r[k]
  {
    if s == [] then [[]]
    else
      var parts := Split(s[..|s| - 1], sep);
      var c := s[|s| - 1];
      if c == sep then parts + [[]]
      else parts[..|parts| - 1] + [parts[|parts| - 1] + [c]]
  }

  /** The number of times c occurs in s. */
  function Count(s: string, c: char): nat {
    if s == [] then 0 else Count(s[..|s| - 1], c) + (if s[|s| - 1] == c then 1 else 0)
  }

  /** There is one more piece than there are separators. */
  lemma {:induction false} SplitCount(s: string, sep: char)
    ensures |Split(s, sep)| == Count(s, sep) + 1
  {
    if s != [] {
      SplitCount(s[..|s| - 1], sep);
    }
  }

  /** Joining the pieces with the separator gives the string back. */
  lemma {:induction false} JoinSplit(s: string, sep: char)
    ensures Join(Split(s, sep), [sep]) == s
  {
    if s != [] {
      var init := s[..|s| - 1];
      var c := s[|s| - 1];
      var parts := Split(init, sep);
      JoinSplit(init, sep);
      if c == sep {
        assert (parts + [[]])[..|parts|] == parts;
      } else {
        var last := parts[|parts| - 1];
        var parts' := parts[..|parts| - 1] + [last + [c]];
        assert parts'[..|parts| - 1] == parts[..|parts| - 1];
        if |parts| > 1 {
          assert Join(parts, [sep]) == Join(parts[..|parts| - 1], [sep]) + [sep] + last;
        }
      }
      assert s == init + [c];
    }
  }

  /** Appending text without a separator extends the last piece. */
  lemma {:induction false} SplitAppendPlain(a: string, b: string, sep: char)
    requires sep !in b
    ensures var p := Split(a, sep);
      Split(a + b, sep) == p[..|p| - 1] + [p[|p| - 1] + b]
    decreases |b|
  {
    var p := Split(a, sep);
    if b == [] {
      assert a + b == a;
      assert p[|p| - 1] + b == p[|p| - 1];
      assert p[..|p| - 1] + [p[|p| - 1]] == p;
    } else {
      var b' := b[..|b| - 1];
      var c := b[|b| - 1];
      SplitAppendPlain(a, b', sep);
      assert (a + b)[..|a + b| - 1] == a + b';
      assert (a + b)[|a + b| - 1] == c;
      assert p[|p| - 1] + b' + [c] == p[|p| - 1] + b;
    }
  }

  /** Splitting the join of separator-free pieces gives the pieces back. */
  lemma {:induction false} SplitJoin(parts: seq<string>, sep: char)
    requires |parts| >= 1 && forall k :: 0 <= k < |parts| ==> sep !in parts[k]
    ensures Split(Join(parts, [sep]), sep) == parts
  {
    if |parts| == 1 {
      SplitAppendPlain([], parts[0], sep);
      assert [] + parts[0] == parts[0];
    } else {
      var init := parts[..|parts| - 1];
      var last := parts[|parts| - 1];
      SplitJoin(init, sep);
      var j := Join(init, [sep]);
      assert Split(j + [sep], sep) == init + [[]] by {
        assert (j + [sep])[..|j + [sep]| - 1] == j;
      }
      SplitAppendPlain(j + [sep], last, sep);
      assert j + [sep] + last == Join(parts, [sep]);
      assert (init + [[]])[..|init|] == init;
      assert [] + last == last;
      assert init + [last] == parts;
    }
  }

  // ---- strip ----

  /** Python's s.strip(): s without its leading and trailing whitespace. */
  function Strip(s: string): (r: string)
    ensures exists i :: (0 <= i <= |s| - |r| && s[i..][..|r|] == r &&
      (forall k :: 0 <= k < i ==> IsSpace(s[k])) &&
      (forall k :: i + |r| <= k < |s| ==> IsSpace(s[k])))
    ensures r == [] || (!IsSpace(r[0]) && !IsSpace(r[|r| - 1]))
  {
    var t := StripStart(s);
    var r := StripEnd(t);
    var i := |s| - |t|;
    assert s[i..][..|r|] == r;
    r
  }

  /** s without its leading whitespace. */
  function StripStart(s: string): (r: string)
    ensures |r| <= |s| && r == s[|s| - |r|..]
    ensures forall k :: 0 <= k < |s| - |r| ==> IsSpace(s[k])
    ensures r == [] || !IsSpace(r[0])
  {
    if s != [] && IsSpace(s[0]) then StripStart(s[1..]) else s
  }

  /** s without its trailing whitespace. */
  function StripEnd(s: string): (r: string)
    ensures |r| <= |s| && r == s[..|r|]
    ensures forall k :: |r| <= k < |s| ==> IsSpace(s[k])
    ensures r == [] || !IsSpace(r[|r| - 1])
  {
    if s != [] && IsSpace(s[|s| - 1]) then StripEnd(s[..|s| - 1]) else s
  }

  // ---- replace ----

  /** Python's s.replace(pat, rep): every occurrence of pat, taken from left
      to right without overlaps, replaced by rep. */
  function Replace(s: string, pat: string, rep: string): (r: string)
    requires pat != []
    decreases |s|
  {
    if |s| < |pat| then s
    else if s[..|pat|] == pat then rep + Replace(s[|pat|..], pat, rep)
    else [s[0]] + Replace(s[1..], pat, rep)
  }

  /** Without an occurrence of pat nothing is replaced. */
  lemma {:induction false} ReplaceAbsent(s: string, pat: string, rep: string)
    requires pat != [] && !Contains(s, pat)
    ensures Replace(s, pat, rep) == s
    decreases |s|
  {
    if |s| >= |pat| {
      assert !OccursAt(s, pat, 0);
      forall i | 0 <= i <= |s[1..]|
        ensures !OccursAt(s[1..], pat, i)
      {
        assert !OccursAt(s, pat, i + 1);
        if i + |pat| <= |s| - 1 {
          assert s[1..][i..i + |pat|] == s[i + 1..i + 1 + |pat|];
        }
      }
      ReplaceAbsent(s[1..], pat, rep);
      assert s == [s[0]] + s[1..];
    }
  }
}
