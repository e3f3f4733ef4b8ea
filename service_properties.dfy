/**
 What the link service promises across calls: how far the split retry goes,
 what the query log records, when alias resolution ends, which rule rejects a
 new keyword, and what the keyword listing shows.
 */
module ServiceProperties {
  import opened Wrappers
  import opened Text
  import opened LinkHelpers
  import opened Repository
  import opened Service

  /** More alias hops never change a resolution that already ended. */
  lemma {:induction false} ResolveFuelMonotone(rows: seq<Shortcut>, storeDown: bool, word: string, term: string, fuel: nat, more: nat)
    requires fuel <= more && Resolve(rows, storeDown, word, term, fuel).Some?
    ensures Resolve(rows, storeDown, word, term, more) == Resolve(rows, storeDown, word, term, fuel)
    decreases fuel, |Fields(word)| + 1
  {
    var w := TrimSpace(word);
    if !storeDown {
      match Lookup(rows, w)
      case None =>
        if ' ' in w {
          RetryShrinks(word, term);
          ResolveRetry(rows, word, term, fuel);
          ResolveRetry(rows, word, term, more);
          var next := MoveLastWord(w, term);
          ResolveFuelMonotone(rows, storeDown, next.0, next.1, fuel, more);
        }
      case Some(row) =>
        ResolveHit(rows, word, term, fuel, row);
        ResolveHit(rows, word, term, more, row);
        HitFuelMonotone(rows, row, term, fuel, more);
    }
  }

  lemma {:induction false} HitFuelMonotone(rows: seq<Shortcut>, row: Shortcut, term: string, fuel: nat, more: nat)
    requires fuel <= more && HitResolve(rows, row, term, fuel).Some?
    ensures HitResolve(rows, row, term, more) == HitResolve(rows, row, term, fuel)
    decreases fuel, 0
  {
    if !IsURL(row.link) {
      ResolveFuelMonotone(rows, false, row.link, term, fuel - 1, more - 1);
    }
  }

  /** The attempt made once every word of the query after the first k has moved into the search term. */
  function Stage(ws: seq<string>, term: string, k: nat): (string, string)
    requires 1 <= k <= |ws|
  {
    (Join(ws[..k], " "), Join(ws[k..] + Fields(term), " "))
  }

  /** The largest j <= k whose first j query words, single-spaced, are a stored word; 0 when none is. */
  function LongestKnownPrefix(rows: seq<Shortcut>, ws: seq<string>, k: nat): (j: nat)
    requires k <= |ws|
    ensures j <= k
  {
    if k == 0 then 0
    else if Lookup(rows, Join(ws[..k], " ")).Some? then k
    else LongestKnownPrefix(rows, ws, k - 1)
  }

  /** The prefix found is known, and every longer one up to k is not: it is the longest. */
  lemma {:induction false} LongestKnownPrefixSpec(rows: seq<Shortcut>, ws: seq<string>, k: nat)
    requires k <= |ws|
    ensures var j := LongestKnownPrefix(rows, ws, k);
      && (j > 0 ==> Lookup(rows, Join(ws[..j], " ")).Some?)
      && (forall i :: j < i <= k ==> Lookup(rows, Join(ws[..i], " ")).None?)
  {
    if k > 0 && Lookup(rows, Join(ws[..k], " ")).None? {
      LongestKnownPrefixSpec(rows, ws, k - 1);
    }
  }

  /** An attempt is already trimmed; past the first word it holds a ' ', at the first word it holds none. */
  lemma StageShape(ws: seq<string>, term: string, k: nat)
    requires forall i :: 0 <= i < |ws| ==> IsWord(ws[i])
    requires 1 <= k <= |ws|
    ensures TrimSpace(Stage(ws, term, k).0) == Stage(ws, term, k).0
    ensures k == 1 ==> Stage(ws, term, k).0 == ws[0] && ' ' !in ws[0]
    ensures k >= 2 ==> ' ' in Stage(ws, term, k).0
  {
    JoinOfWordsTrimmed(ws[..k]);
    TrimmedFixed(Stage(ws, term, k).0);
    if k == 1 {
      assert ws[..1] == [ws[0]];
    }
  }

  /** The retry after a missed attempt at k words is the attempt at k - 1 words. */
  lemma StageRetry(ws: seq<string>, term: string, k: nat)
    requires forall i :: 0 <= i < |ws| ==> IsWord(ws[i])
    requires 2 <= k <= |ws|
    ensures MoveLastWord(Stage(ws, term, k).0, Stage(ws, term, k).1) == Stage(ws, term, k - 1)
  {
    var front := ws[..k];
    var tail := ws[k..] + Fields(term);
    assert Stage(ws, term, k) == (Join(front, " "), Join(tail, " "));
    FieldsOfJoin(front);
    assert forall i :: 0 <= i < |tail| ==> IsWord(tail[i]);
    FieldsOfJoin(tail);
    assert front[..k - 1] == ws[..k - 1];
    assert [front[k - 1]] + tail == ws[k - 1..] + Fields(term);
  }

  /**
   From the attempt at k words, the retries walk down to the longest known
   prefix of at most k words and resolve it with the remaining words as the
   search term; with none, the first word is not found.
   */
  lemma {:induction false} StagesDescend(rows: seq<Shortcut>, ws: seq<string>, term: string, k: nat, fuel: nat)
    requires forall i :: 0 <= i < |ws| ==> IsWord(ws[i])
    requires 1 <= k <= |ws|
    ensures var j := LongestKnownPrefix(rows, ws, k);
      Resolve(rows, false, Stage(ws, term, k).0, Stage(ws, term, k).1, fuel) ==
        if j == 0 then Some(Resolution(Failure(InvalidQuery(NotFoundMessage(ws[0], Stage(ws, term, 1).1))), []))
        else Resolve(rows, false, Stage(ws, term, j).0, Stage(ws, term, j).1, fuel)
    decreases k
  {
    var a := Stage(ws, term, k).0;
    var b := Stage(ws, term, k).1;
    var j := LongestKnownPrefix(rows, ws, k);
    StageShape(ws, term, k);
    if Lookup(rows, a).Some? {
      assert j == k;
    } else if k == 1 {
      assert j == 0;
      ResolveNotFound(rows, a, b, fuel);
    } else {
      assert j == LongestKnownPrefix(rows, ws, k - 1);
      ResolveRetry(rows, a, b, fuel);
      StageRetry(ws, term, k);
      assert MoveLastWord(TrimSpace(a), b) == Stage(ws, term, k - 1);
      StagesDescend(rows, ws, term, k - 1, fuel);
    }
  }

  /** moveLastWord on a string with words: the attempt at all but its last word. */
  lemma MoveLastWordIsStage(from: string, to: string)
    requires |Fields(from)| >= 2
    ensures MoveLastWord(from, to) == Stage(Fields(from), to, |Fields(from)| - 1)
  {
    var ws := Fields(from);
    var n := |ws|;
    assert ws[n - 1..] == [ws[n - 1]];
  }

  /** The first retry of a query moves its last word out of the trimmed word: the attempt at all but one word. */
  lemma FirstRetry(word: string, term: string)
    requires ' ' in TrimSpace(word)
    ensures |Fields(word)| >= 2
    ensures MoveLastWord(TrimSpace(word), term) == Stage(Fields(word), term, |Fields(word)| - 1)
  {
    var w := TrimSpace(word);
    TrimSpaceTrimmed(word);
    SpaceMeansTwoFields(w);
    FieldsOfTrimSpace(word);
    assert |Fields(w)| >= 2;
    MoveLastWordIsStage(w, term);
    assert MoveLastWord(w, term) == Stage(Fields(w), term, |Fields(w)| - 1);
    assert Fields(w) == Fields(word);
  }

  /**
   A query whose trimmed word is unknown and holds a ' ' resolves as its
   longest known prefix of words, the words after it becoming the search
   term in front of the words of the original one; when no prefix is known,
   the error names the first word and the rest, single-spaced.
   */
  lemma SplitFindsLongestKnownPrefix(rows: seq<Shortcut>, word: string, term: string, fuel: nat)
    requires Lookup(rows, TrimSpace(word)).None? && ' ' in TrimSpace(word)
    ensures |Fields(word)| >= 2
    ensures var ws := Fields(word); var j := LongestKnownPrefix(rows, ws, |ws| - 1);
      Resolve(rows, false, word, term, fuel) ==
        if j == 0 then Some(Resolution(Failure(InvalidQuery(NotFoundMessage(ws[0], Join(ws[1..] + Fields(term), " ")))), []))
        else Resolve(rows, false, Join(ws[..j], " "), Join(ws[j..] + Fields(term), " "), fuel)
  {
    var ws := Fields(word);
    FirstRetry(word, term);
    ResolveRetry(rows, word, term, fuel);
    StagesDescend(rows, ws, term, |ws| - 1, fuel);
  }

  /** The ids of the table's rows. */
  ghost function Ids(rows: seq<Shortcut>): set<int> {
    set row | row in rows :: row.id
  }

  /**
   Every id a resolution records is a row's id; a successful resolution
   recorded at least one hit; when the store fails on every call, nothing is
   recorded.
   */
  lemma {:induction false} ResolveHitsAreRows(rows: seq<Shortcut>, storeDown: bool, word: string, term: string, fuel: nat)
    requires Resolve(rows, storeDown, word, term, fuel).Some?
    ensures var res := Resolve(rows, storeDown, word, term, fuel).value;
      && (forall h | h in res.hits :: h in Ids(rows))
      && (res.outcome.Success? ==> res.hits != [])
      && (storeDown ==> res == Resolution(Failure(StoreFailure(LookupFailed)), []))
    decreases fuel, |Fields(word)| + 1
  {
    var w := TrimSpace(word);
    if storeDown {
      ResolveStoreDown(rows, word, term, fuel);
    } else {
      match Lookup(rows, w)
      case None =>
        if ' ' in w {
          RetryShrinks(word, term);
          ResolveRetry(rows, word, term, fuel);
          var next := MoveLastWord(w, term);
          ResolveHitsAreRows(rows, storeDown, next.0, next.1, fuel);
        } else {
          ResolveNotFound(rows, word, term, fuel);
        }
      case Some(row) =>
        LookupSpec(rows, w);
        ResolveHit(rows, word, term, fuel, row);
        HitHitsAreRows(rows, row, term, fuel);
    }
  }

  lemma {:induction false} HitHitsAreRows(rows: seq<Shortcut>, row: Shortcut, term: string, fuel: nat)
    requires row in rows && HitResolve(rows, row, term, fuel).Some?
    ensures var res := HitResolve(rows, row, term, fuel).value;
      && res.hits != [] && res.hits[0] == row.id
      && (forall h | h in res.hits :: h in Ids(rows))
    decreases fuel, 0
  {
    if !IsURL(row.link) {
      ResolveHitsAreRows(rows, false, row.link, term, fuel - 1);
    }
  }

  /** Every link of the table is a URL. */
  ghost predicate AllURLs(rows: seq<Shortcut>) {
    forall i :: 0 <= i < |rows| ==> IsURL(rows[i].link)
  }

  /** In a table of URLs only, every query resolves without following any alias. */
  lemma {:induction false} URLTableNeedsNoHops(rows: seq<Shortcut>, storeDown: bool, word: string, term: string)
    requires AllURLs(rows)
    ensures Resolve(rows, storeDown, word, term, 0).Some?
    decreases |Fields(word)|
  {
    var w := TrimSpace(word);
    if !storeDown {
      match Lookup(rows, w)
      case None =>
        if ' ' in w {
          RetryShrinks(word, term);
          ResolveRetry(rows, word, term, 0);
          var next := MoveLastWord(w, term);
          URLTableNeedsNoHops(rows, storeDown, next.0, next.1);
        } else {
          ResolveNotFound(rows, word, term, 0);
        }
      case Some(row) =>
        LookupSpec(rows, w);
        ResolveHit(rows, word, term, 0, row);
    }
  }

  /** UpdateLink only ever stores URLs, so a table it built stays a table of URLs. */
  lemma AdmittedKeepsAllURLs(rows: seq<Shortcut>, req: LinkRequest, userID: string, now: int)
    requires AllURLs(rows) && AdmissionError(req).None?
    ensures AllURLs(rows + [Shortcut(NextId(rows), req.word, req.link, userID, now)])
  {
    var rows' := rows + [Shortcut(NextId(rows), req.word, req.link, userID, now)];
    assert forall i :: 0 <= i < |rows| ==> rows'[i] == rows[i];
  }

  /**
   After a hit on one of two keywords whose links, once trimmed, name each
   other, resolution never ends, however many hops are allowed.
   */
  lemma {:induction false} HitCycleDiverges(rows: seq<Shortcut>, x: string, y: string, term: string, fuel: nat, rx: Shortcut, ry: Shortcut)
    requires Lookup(rows, x) == Some(rx) && !IsURL(rx.link) && TrimSpace(rx.link) == y
    requires Lookup(rows, y) == Some(ry) && !IsURL(ry.link) && TrimSpace(ry.link) == x
    ensures HitResolve(rows, rx, term, fuel).None?
    decreases fuel
  {
    if fuel > 0 {
      ResolveHit(rows, rx.link, term, fuel - 1, ry);
      HitCycleDiverges(rows, y, x, term, fuel - 1, ry, rx);
    }
  }

  /**
   Two keywords whose links, once trimmed, name each other never resolve,
   however many hops are allowed: every lookup and every hop trims, but
   nothing breaks the cycle.
   */
  lemma AliasCycleDiverges(rows: seq<Shortcut>, query: string, x: string, y: string, term: string, fuel: nat, rx: Shortcut, ry: Shortcut)
    requires TrimSpace(query) == x
    requires Lookup(rows, x) == Some(rx) && !IsURL(rx.link) && TrimSpace(rx.link) == y
    requires Lookup(rows, y) == Some(ry) && !IsURL(ry.link) && TrimSpace(ry.link) == x
    ensures Resolve(rows, false, query, term, fuel).None?
  {
    ResolveHit(rows, query, term, fuel, rx);
    HitCycleDiverges(rows, x, y, term, fuel, rx, ry);
  }

  /**
   After a trimmed keyword is stored, every query that trims to it resolves
   to the new link filled with the search term, recording the new row only:
   the newest row wins.
   */
  lemma ResolveAfterUpdate(rows: seq<Shortcut>, req: LinkRequest, userID: string, now: int, query: string, term: string, fuel: nat)
    requires AdmissionError(req).None? && TrimSpace(query) == req.word
    ensures var row := Shortcut(NextId(rows), req.word, req.link, userID, now);
      Resolve(rows + [row], false, query, term, fuel) ==
        Some(Resolution(Success(ProcessResultLink(req.link, term)), [row.id]))
  {
    var row := Shortcut(NextId(rows), req.word, req.link, userID, now);
    LookupAfterAppend(rows, row, req.word);
    ResolveHit(rows + [row], query, term, fuel, row);
  }

  /**
   Validation trims only its own copies, so a keyword stored with outer
   spaces is never found: every lookup is of a trimmed query.
   */
  lemma PaddedKeywordUnreachable(rows: seq<Shortcut>, query: string, row: Shortcut)
    requires !Trimmed(row.word)
    ensures Lookup(rows, TrimSpace(query)) != Some(row)
  {
    TrimSpaceTrimmed(query);
    LookupSpec(rows, TrimSpace(query));
  }

  /** The checks UpdateLink makes, in the order it makes them. */
  datatype Rule = EmptyWord | TrailingSlash | EmptyLink | SelfReference | NotURL

  const Rules: seq<Rule> := [EmptyWord, TrailingSlash, EmptyLink, SelfReference, NotURL]

  /** The condition each rule rejects. */
  predicate Violates(rule: Rule, req: LinkRequest) {
    match rule
    case EmptyWord => TrimSpace(req.word) == ""
    case TrailingSlash => HasSuffix(TrimSpace(req.word), "/")
    case EmptyLink => TrimSpace(req.link) == ""
    case SelfReference => TrimSpace(req.link) == TrimSpace(req.word)
    case NotURL => !IsURL(req.link)
  }

  function RuleMessage(rule: Rule): string {
    match rule
    case EmptyWord => NoWordMessage
    case TrailingSlash => SlashMessage
    case EmptyLink => NoLinkMessage
    case SelfReference => SelfMessage
    case NotURL => NotURLMessage
  }

  /** The first rule a request violates is the one whose message UpdateLink returns. */
  lemma AdmissionRejectsFirstViolated(req: LinkRequest, i: nat)
    requires i < |Rules| && Violates(Rules[i], req)
    requires forall j :: 0 <= j < i ==> !Violates(Rules[j], req)
    ensures AdmissionError(req) == Some(InvalidQuery(RuleMessage(Rules[i])))
  {
    if i > 0 { assert !Violates(Rules[0], req); }
    if i > 1 { assert !Violates(Rules[1], req); }
    if i > 2 { assert !Violates(Rules[2], req); }
    if i > 3 { assert !Violates(Rules[3], req); }
  }

  /** UpdateLink admits a request exactly when it violates none of the rules. */
  lemma AdmissionAcceptsIffNoViolation(req: LinkRequest)
    ensures AdmissionError(req).None? <==> forall i :: 0 <= i < |Rules| ==> !Violates(Rules[i], req)
  {
    if AdmissionError(req).None? {
      forall i | 0 <= i < |Rules|
        ensures !Violates(Rules[i], req)
      {
        assert Rules[i] in {EmptyWord, TrailingSlash, EmptyLink, SelfReference, NotURL};
      }
    } else {
      assert Violates(Rules[0], req) || Violates(Rules[1], req) || Violates(Rules[2], req)
        || Violates(Rules[3], req) || Violates(Rules[4], req);
    }
  }

  /** validateLinkRequest alone is the first four rules: it accepts a request whatever its link's scheme. */
  lemma ValidationIgnoresScheme(req: LinkRequest)
    ensures ValidateLinkRequest(req).None? <==> forall i :: 0 <= i < 4 ==> !Violates(Rules[i], req)
  {
    if ValidateLinkRequest(req).Some? {
      assert Violates(Rules[0], req) || Violates(Rules[1], req) || Violates(Rules[2], req) || Violates(Rules[3], req);
    }
  }

  /** The URL check runs on the untrimmed link: a link with a leading space passes validation and is still refused. */
  lemma LeadingSpaceLinkRefused(req: LinkRequest)
    requires ValidateLinkRequest(req).None? && req.link != [] && IsSpace(req.link[0])
    ensures AdmissionError(req) == Some(InvalidQuery(NotURLMessage))
  {
    assert req.link[0] != "http://"[0];
  }

  /** The URL filter keeps exactly the entries pointing at URLs. */
  lemma {:induction false} UrlsOnlyMembers(keywords: seq<KeywordInfo>, k: KeywordInfo)
    ensures k in UrlsOnly(keywords) <==> k in keywords && IsURL(k.link)
    decreases |keywords|
  {
    if keywords != [] {
      var init := keywords[..|keywords| - 1];
      UrlsOnlyMembers(init, k);
      assert keywords == init + [keywords[|keywords| - 1]];
    }
  }

  /** The URL filter keeps the listing's order: filtering a concatenation concatenates the filtered parts. */
  lemma {:induction false} UrlsOnlyAppend(a: seq<KeywordInfo>, b: seq<KeywordInfo>)
    ensures UrlsOnly(a + b) == UrlsOnly(a) + UrlsOnly(b)
    decreases |b|
  {
    if b == [] {
      assert a + b == a;
    } else {
      var init := b[..|b| - 1];
      assert a + b == (a + init) + [b[|b| - 1]];
      assert (a + b)[..|a + b| - 1] == a + init;
      UrlsOnlyAppend(a, init);
    }
  }

  /** GetAllKeywords lists exactly the live row of each word whose link is a URL. */
  lemma ListingShowsLiveURLs(rows: seq<Shortcut>, k: KeywordInfo)
    ensures k in UrlsOnly(Listing(rows)) <==>
      Lookup(rows, k.word).Some? && k == Info(Lookup(rows, k.word).value) && IsURL(k.link)
  {
    UrlsOnlyMembers(Listing(rows), k);
    ListingIsLive(rows, k);
  }
}
