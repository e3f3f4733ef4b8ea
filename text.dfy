/**
 The string primitives the link service is built from: Go's unicode.IsSpace,
 strings.TrimSpace, strings.Fields, strings.Join, strings.HasPrefix,
 strings.HasSuffix and strings.ReplaceAll, over strings of Unicode scalar values.
 */
module Text {

  /**
   The characters Go's unicode.IsSpace accepts: '\t' through '\r', ' ', U+0085
   and U+00A0 in Latin-1; above it the White_Space characters U+1680, U+2000
   through U+200A, U+2028, U+2029, U+202F, U+205F and U+3000.
   */
  const Spaces: set<char> := {
    '\t', '\n', '\U{000B}', '\U{000C}', '\r', ' ', '\U{0085}', '\U{00A0}', '\U{1680}',
    '\U{2000}', '\U{2001}', '\U{2002}', '\U{2003}', '\U{2004}', '\U{2005}', '\U{2006}',
    '\U{2007}', '\U{2008}', '\U{2009}', '\U{200A}',
    '\U{2028}', '\U{2029}', '\U{202F}', '\U{205F}', '\U{3000}'
  }

  /** Go's unicode.IsSpace. */
  predicate IsSpace(c: char) {
    c in Spaces
  }

  predicate AllSpace(s: string) {
    forall i :: 0 <= i < |s| ==> IsSpace(s[i])
  }

  /** A word as strings.Fields produces it: non-empty, no space character in it. */
  predicate IsWord(w: string) {
    w != [] && forall i :: 0 <= i < |w| ==> !IsSpace(w[i])
  }

  predicate HasPrefix(s: string, p: string) {
    |p| <= |s| && s[..|p|] == p
  }

  predicate HasSuffix(s: string, p: string) {
    |p| <= |s| && s[|s| - |p|..] == p
  }

  /** strings.TrimSpace: s without its leading and its trailing spaces. */
  function TrimSpace(s: string): string
    decreases |s|
  {
    if s != [] && IsSpace(s[0]) then TrimSpace(s[1..])
    else if s != [] && IsSpace(s[|s| - 1]) then TrimSpace(s[..|s| - 1])
    else s
  }

  /** TrimSpace leaves no space at either end. */
  lemma {:induction false} TrimSpaceTrimmed(s: string)
    ensures Trimmed(TrimSpace(s))
    decreases |s|
  {
    if s != [] && IsSpace(s[0]) {
      TrimSpaceTrimmed(s[1..]);
    } else if s != [] && IsSpace(s[|s| - 1]) {
      TrimSpaceTrimmed(s[..|s| - 1]);
    }
  }

  /** No space at either end. */
  predicate Trimmed(s: string) {
    s == [] || (!IsSpace(s[0]) && !IsSpace(s[|s| - 1]))
  }

  lemma TrimmedFixed(s: string)
    requires Trimmed(s)
    ensures TrimSpace(s) == s
  {
  }

  lemma TrimSpaceIdempotent(s: string)
    ensures TrimSpace(TrimSpace(s)) == TrimSpace(s)
  {
    TrimSpaceTrimmed(s);
    TrimmedFixed(TrimSpace(s));
  }

  /** Length of the run of non-space characters at the start of s. */
  function WordLength(s: string): (k: nat)
    ensures k <= |s|
    ensures forall i :: 0 <= i < k ==> !IsSpace(s[i])
    ensures k < |s| ==> IsSpace(s[k])
  {
    if s == [] || IsSpace(s[0]) then 0 else 1 + WordLength(s[1..])
  }

  /** strings.Fields: the maximal runs of non-space characters of s, in order. */
  function Fields(s: string): (ws: seq<string>)
    ensures forall i :: 0 <= i < |ws| ==> IsWord(ws[i])
    decreases |s|
  {
    if s == [] then []
    else if IsSpace(s[0]) then Fields(s[1..])
    else
      var k := WordLength(s);
      [s[..k]] + Fields(s[k..])
  }

  /** strings.Join. */
  function Join(ws: seq<string>, sep: string): string
  {
    if ws == [] then ""
    else if |ws| == 1 then ws[0]
    else ws[0] + sep + Join(ws[1..], sep)
  }

  /** Join of a word followed by at least one more. */
  lemma JoinCons(x: string, rest: seq<string>, sep: string)
    requires rest != []
    ensures Join([x] + rest, sep) == x + sep + Join(rest, sep)
  {
    assert ([x] + rest)[1..] == rest;
  }

  /** Putting a character in front of the first piece puts it in front of the joined string. */
  lemma JoinExtendFirst(c: char, r: seq<string>, sep: string)
    requires r != []
    ensures Join([[c] + r[0]] + r[1..], sep) == [c] + Join(r, sep)
  {
    if |r| > 1 {
      JoinCons([c] + r[0], r[1..], sep);
      JoinCons(r[0], r[1..], sep);
      assert [r[0]] + r[1..] == r;
    }
  }

  lemma {:induction false} WordLengthPrefix(a: string, b: string)
    requires WordLength(a) < |a| || (b != [] && IsSpace(b[0]))
    ensures WordLength(a + b) == WordLength(a)
    decreases |a|
  {
    if a == [] {
      assert a + b == b;
    } else if !IsSpace(a[0]) {
      assert (a + b)[0] == a[0];
      assert (a + b)[1..] == a[1..] + b;
      WordLengthPrefix(a[1..], b);
    } else {
      assert (a + b)[0] == a[0];
    }
  }

  /** A space character separates the fields on its two sides. */
  lemma {:induction false} FieldsAround(a: string, c: char, b: string)
    requires IsSpace(c)
    ensures Fields(a + [c] + b) == Fields(a) + Fields(b)
    decreases |a|
  {
    var s := a + [c] + b;
    if a == [] {
      assert s[1..] == b;
    } else if IsSpace(a[0]) {
      assert s[1..] == a[1..] + [c] + b;
      FieldsAround(a[1..], c, b);
    } else {
      WordLengthPrefix(a, [c] + b);
      assert s == a + ([c] + b);
      var k := WordLength(a);
      assert Fields(s) == [s[..k]] + Fields(s[k..]);
      assert Fields(a) == [a[..k]] + Fields(a[k..]);
      if k == |a| {
        assert s[..k] == a[..k];
        assert s[k..] == [c] + b;
        assert a[k..] == [];
        assert ([c] + b)[1..] == b;
        assert Fields([c] + b) == Fields(b);
      } else {
        assert s[..k] == a[..k];
        assert s[k..] == a[k..] + [c] + b;
        FieldsAround(a[k..], c, b);
      }
    }
  }

  lemma {:induction false} FieldsOfAllSpace(s: string)
    requires AllSpace(s)
    ensures Fields(s) == []
    decreases |s|
  {
    if s != [] {
      FieldsOfAllSpace(s[1..]);
    }
  }

  /** Fields finds no word exactly in an all-space string. */
  lemma {:induction false} FieldsEmptyIffAllSpace(s: string)
    ensures Fields(s) == [] <==> AllSpace(s)
    decreases |s|
  {
    if s != [] {
      FieldsEmptyIffAllSpace(s[1..]);
      if IsSpace(s[0]) {
        assert AllSpace(s) <==> AllSpace(s[1..]);
      }
    }
  }

  lemma FieldsOfWord(w: string)
    requires IsWord(w)
    ensures Fields(w) == [w]
  {
    assert WordLength(w) == |w|;
    assert w[..|w|] == w;
    assert w[|w|..] == [];
  }

  /** Splitting single-space-joined words with Fields gives the words back. */
  lemma {:induction false} FieldsOfJoin(ws: seq<string>)
    requires forall i :: 0 <= i < |ws| ==> IsWord(ws[i])
    ensures Fields(Join(ws, " ")) == ws
  {
    if |ws| == 1 {
      FieldsOfWord(ws[0]);
    } else if |ws| > 1 {
      FieldsOfWord(ws[0]);
      FieldsOfJoin(ws[1..]);
      FieldsAround(ws[0], ' ', Join(ws[1..], " "));
    }
  }

  /** Words joined by single spaces have no space at either end. */
  lemma {:induction false} JoinOfWordsTrimmed(ws: seq<string>)
    requires forall i :: 0 <= i < |ws| ==> IsWord(ws[i])
    ensures Trimmed(Join(ws, " "))
    ensures |ws| == 1 ==> ' ' !in Join(ws, " ")
    ensures |ws| >= 2 ==> ' ' in Join(ws, " ")
  {
    if |ws| == 1 {
      assert forall i :: 0 <= i < |ws[0]| ==> ws[0][i] != ' ';
    } else if |ws| > 1 {
      JoinOfWordsTrimmed(ws[1..]);
      var j := ws[0] + " " + Join(ws[1..], " ");
      assert j[|ws[0]|] == ' ';
    }
  }

  lemma FieldsBeforeSpaces(x: string, post: string)
    requires AllSpace(post)
    ensures Fields(x + post) == Fields(x)
  {
    if post == [] {
      assert x + post == x;
    } else {
      FieldsAround(x, post[0], post[1..]);
      FieldsOfAllSpace(post[1..]);
      assert x + post == x + [post[0]] + post[1..];
    }
  }

  /** Trimming changes no field. */
  lemma {:induction false} FieldsOfTrimSpace(s: string)
    ensures Fields(TrimSpace(s)) == Fields(s)
    decreases |s|
  {
    if s != [] && IsSpace(s[0]) {
      FieldsOfTrimSpace(s[1..]);
    } else if s != [] && IsSpace(s[|s| - 1]) {
      var init := s[..|s| - 1];
      FieldsOfTrimSpace(init);
      assert s == init + [s[|s| - 1]];
      assert AllSpace([s[|s| - 1]]);
      FieldsBeforeSpaces(init, [s[|s| - 1]]);
    }
  }

  /** A trimmed string with a ' ' inside has at least two fields. */
  lemma SpaceMeansTwoFields(t: string)
    requires Trimmed(t) && ' ' in t
    ensures |Fields(t)| >= 2
  {
    var k :| 0 <= k < |t| && t[k] == ' ';
    assert 0 < k < |t| - 1;
    assert t == t[..k] + [' '] + t[k + 1..];
    FieldsAround(t[..k], ' ', t[k + 1..]);
    FieldsEmptyIffAllSpace(t[..k]);
    FieldsEmptyIffAllSpace(t[k + 1..]);
    assert t[..k][0] == t[0];
    assert t[k + 1..][|t| - k - 2] == t[|t| - 1];
  }

  /** pat occurs in s at index i. */
  predicate OccursAt(pat: string, s: string, i: nat) {
    i + |pat| <= |s| && s[i..i + |pat|] == pat
  }

  /** s holds an occurrence of pat. */
  predicate Occurs(pat: string, s: string) {
    exists i: nat | i <= |s| :: OccursAt(pat, s, i)
  }

  /** strings.ReplaceAll for a non-empty pattern: scans left to right, replacing non-overlapping occurrences. */
  function ReplaceAll(s: string, pat: string, rep: string): string
    requires pat != []
  {
    if |s| < |pat| then s
    else if s[..|pat|] == pat then rep + ReplaceAll(s[|pat|..], pat, rep)
    else [s[0]] + ReplaceAll(s[1..], pat, rep)
  }

  /** With no occurrence of the pattern, ReplaceAll changes nothing. */
  lemma {:induction false} ReplaceAllAbsent(s: string, pat: string, rep: string)
    requires pat != [] && !Occurs(pat, s)
    ensures ReplaceAll(s, pat, rep) == s
    decreases |s|
  {
    if |s| >= |pat| {
      assert !OccursAt(pat, s, 0);
      forall i: nat | i <= |s[1..]|
        ensures !OccursAt(pat, s[1..], i)
      {
        if i + |pat| <= |s[1..]| {
          assert s[1..][i..i + |pat|] == s[i + 1..i + 1 + |pat|];
          assert !OccursAt(pat, s, i + 1);
        }
      }
      ReplaceAllAbsent(s[1..], pat, rep);
    }
  }
}
