/**
 The pure helpers of the link service: recognising a URL target, filling the
 "{*}" placeholders of a URL with the encoded search term, and moving the last
 word of a query into the search term.
 */
module LinkHelpers {
  import opened Wrappers
  import opened Text
  import opened UrlEscape

  /** The placeholder a URL target carries for the search term. */
  const Token: string := "{*}"

  /** A target is a URL when it starts with "http://" or "https://"; anything else is a keyword alias. */
  predicate IsURL(link: string) {
    HasPrefix(link, "http://") || HasPrefix(link, "https://")
  }

  lemma IsURLExamples()
    ensures IsURL("http://example.com") && IsURL("https://example.com")
    ensures !IsURL("docs") && !IsURL("") && !IsURL("ftp://example.com")
  {
    assert "docs"[0] != "http://"[0];
    assert "ftp://example.com"[0] != "http://"[0];
  }

  /** The search term as it is substituted: placeholders deleted, trimmed, then query-escaped. */
  function EncodedTerm(term: string): string
  {
    QueryEscape(TrimSpace(ReplaceAll(term, Token, "")))
  }

  /** The substituted term holds only URL-safe characters: unreserved ones, '+' and '%'. */
  lemma EncodedTermAlphabet(term: string)
    ensures forall i :: 0 <= i < |EncodedTerm(term)| ==> IsEscapedChar(EncodedTerm(term)[i])
  {
    EscapeBytesAlphabet(Utf8(TrimSpace(ReplaceAll(term, Token, ""))));
  }

  /** processResultLink: every placeholder of the link replaced by the encoded term, then trimmed. */
  function ProcessResultLink(link: string, term: string): string
  {
    TrimSpace(ReplaceAll(link, Token, EncodedTerm(term)))
  }

  /** The pieces of s between the placeholders, left to right. */
  function SplitOnToken(s: string): (pieces: seq<string>)
    ensures |pieces| >= 1
    ensures forall i :: 0 <= i < |pieces| ==> !Occurs(Token, pieces[i])
    ensures Join(pieces, Token) == s
    decreases |s|
  {
    if |s| >= 3 && s[..3] == Token then
      var r := SplitOnToken(s[3..]);
      assert s == [] + Token + s[3..];
      assert !OccursAt(Token, "", 0);
      [""] + r
    else if s == [] then
      assert !OccursAt(Token, "", 0);
      [""]
    else
      var r := SplitOnToken(s[1..]);
      SplitExtend(s, r);
      [[s[0]] + r[0]] + r[1..]
  }

  /** The first piece starts the joined string. */
  lemma JoinStartsWithFirst(r: seq<string>, sep: string)
    requires |r| >= 1
    ensures |r[0]| <= |Join(r, sep)| && Join(r, sep)[..|r[0]|] == r[0]
  {
    if |r| > 1 {
      assert Join(r, sep) == r[0] + (sep + Join(r[1..], sep));
    }
  }

  /** Prepending the first character of s to the first piece of s[1..] gives the pieces of s. */
  lemma SplitExtend(s: string, r: seq<string>)
    requires s != [] && !(|s| >= 3 && s[..3] == Token)
    requires |r| >= 1 && Join(r, Token) == s[1..]
    requires forall i :: 0 <= i < |r| ==> !Occurs(Token, r[i])
    ensures Join([[s[0]] + r[0]] + r[1..], Token) == s
    ensures !Occurs(Token, [s[0]] + r[0])
  {
    JoinExtendFirst(s[0], r, Token);
    assert s == [s[0]] + s[1..];
    JoinStartsWithFirst(r, Token);
    FirstPieceExtended(s, r[0]);
  }

  /** A placeholder-free prefix of s[1..], extended by s[0], stays placeholder-free when s does not start with one. */
  lemma FirstPieceExtended(s: string, q: string)
    requires s != [] && !(|s| >= 3 && s[..3] == Token)
    requires |q| < |s| && s[1..][..|q|] == q && !Occurs(Token, q)
    ensures !Occurs(Token, [s[0]] + q)
  {
    var p := [s[0]] + q;
    assert p == s[..|p|];
    forall i: nat | i <= |p|
      ensures !OccursAt(Token, p, i)
    {
      if i + 3 <= |p| {
        if i == 0 {
          assert p[..3] == s[..3];
        } else {
          assert p[i..i + 3] == q[i - 1..i + 2];
          assert !OccursAt(Token, q, i - 1);
        }
      }
    }
  }

  /** ReplaceAll passes a placeholder-free piece through and replaces the placeholder after it. */
  lemma {:induction false} ReplaceAfterPiece(p: string, rest: string, rep: string)
    requires !Occurs(Token, p)
    ensures ReplaceAll(p + Token + rest, Token, rep) == p + rep + ReplaceAll(rest, Token, rep)
    decreases |p|
  {
    var s := p + Token + rest;
    if p == [] {
      assert s[..3] == Token && s[3..] == rest;
    } else {
      if |p| >= 3 {
        assert s[..3] == p[..3];
        assert !OccursAt(Token, p, 0);
      } else if |p| == 1 {
        assert s[1] == '{';
      } else {
        assert s[2] == '{';
      }
      assert s[..3] != Token;
      forall i: nat | i <= |p[1..]|
        ensures !OccursAt(Token, p[1..], i)
      {
        if i + 3 <= |p[1..]| {
          assert p[1..][i..i + 3] == p[i + 1..i + 4];
          assert !OccursAt(Token, p, i + 1);
        }
      }
      assert s[1..] == p[1..] + Token + rest;
      ReplaceAfterPiece(p[1..], rest, rep);
    }
  }

  /** Replacing the placeholders of placeholder-free pieces joined by the placeholder joins them by the replacement. */
  lemma {:induction false} ReplaceJoin(pieces: seq<string>, rep: string)
    requires |pieces| >= 1
    requires forall i :: 0 <= i < |pieces| ==> !Occurs(Token, pieces[i])
    ensures ReplaceAll(Join(pieces, Token), Token, rep) == Join(pieces, rep)
  {
    if |pieces| == 1 {
      ReplaceAllAbsent(pieces[0], Token, rep);
    } else {
      ReplaceJoin(pieces[1..], rep);
      ReplaceAfterPiece(pieces[0], Join(pieces[1..], Token), rep);
    }
  }

  /** processResultLink fills every placeholder of the link with the same encoded term. */
  lemma ProcessResultLinkFillsEveryToken(link: string, term: string)
    ensures ProcessResultLink(link, term) == TrimSpace(Join(SplitOnToken(link), EncodedTerm(term)))
  {
    ReplaceJoin(SplitOnToken(link), EncodedTerm(term));
  }

  /** A link with no placeholder comes back only trimmed, whatever the search term. */
  lemma ProcessResultLinkWithoutToken(link: string, term: string)
    requires !Occurs(Token, link)
    ensures ProcessResultLink(link, term) == TrimSpace(link)
  {
    ReplaceAllAbsent(link, Token, EncodedTerm(term));
  }

  /** The substituted term decodes to the UTF-8 bytes of the trimmed, placeholder-free search term. */
  lemma EncodedTermDecodes(term: string)
    ensures Unescape(EncodedTerm(term)) == Some(Utf8(TrimSpace(ReplaceAll(term, Token, ""))))
  {
    QueryEscapeRoundTrip(TrimSpace(ReplaceAll(term, Token, "")));
  }

  /** moveLastWord: the last word of `from` moved to the front of the words of `to`, both re-joined by single spaces. */
  function MoveLastWord(from: string, to: string): (string, string)
  {
    var ws := Fields(from);
    if |ws| == 0 then (from, to)
    else (Join(ws[..|ws| - 1], " "), Join([ws[|ws| - 1]] + Fields(to), " "))
  }

  /**
   With no word in `from`, both strings come back unchanged; otherwise `from`
   loses exactly its last word, which goes in front of the words of `to`, no
   word is lost or added, and both results are their words joined by single
   spaces.
   */
  lemma MoveLastWordWords(from: string, to: string)
    ensures var r := MoveLastWord(from, to);
      Fields(from) == [] ==> r == (from, to)
    ensures var r := MoveLastWord(from, to); var ws := Fields(from);
      ws != [] ==>
      && Fields(r.0) == ws[..|ws| - 1]
      && Fields(r.1) == [ws[|ws| - 1]] + Fields(to)
      && Fields(r.0) + Fields(r.1) == Fields(from) + Fields(to)
      && r.0 == Join(Fields(r.0), " ") && r.1 == Join(Fields(r.1), " ")
  {
    var ws := Fields(from);
    if ws != [] {
      var n := |ws|;
      var front := ws[..n - 1];
      var moved := [ws[n - 1]] + Fields(to);
      assert MoveLastWord(from, to) == (Join(front, " "), Join(moved, " "));
      assert forall i :: 0 <= i < |front| ==> IsWord(front[i]);
      FieldsOfJoin(front);
      assert forall i :: 0 <= i < |moved| ==> IsWord(moved[i]);
      FieldsOfJoin(moved);
      assert front + moved == ws + Fields(to);
    }
  }
}
