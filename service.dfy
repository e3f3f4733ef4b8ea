/**
 The link service: resolving a golink query against the shortcut store,
 admitting a new keyword, and listing the keywords that point at URLs.

 The two repositories the service talks to are held as the state of one
 object: the rows of the shortcut table and the ids the query log has
 recorded, plus a flag per repository saying whether its calls fail.
 */
module Service {
  import opened Wrappers
  import opened Text
  import opened LinkHelpers
  import opened Repository

  /**
   InvalidQueryError; a repository failure wrapped with the step that failed;
   or a repository failure handed back as the repository reported it.
   */
  datatype Error = InvalidQuery(message: string) | StoreFailure(context: string) | RepositoryError

  /** A request to point `word` at `link`. */
  datatype LinkRequest = LinkRequest(word: string, link: string)

  /** What a query resolves to, and the ids of the rows it hit, in order: one usage entry each. */
  datatype Resolution = Resolution(outcome: Result<string, Error>, hits: seq<int>)

  const LookupFailed: string := "failed to get shortcut"
  const CreateFailed: string := "failed to create shortcut"

  function NotFoundMessage(word: string, term: string): string {
    "Unable to find link for query " + word + " " + term
  }

  /** The split retry drops exactly one word of the query, so the retries end. */
  lemma RetryShrinks(word: string, term: string)
    requires ' ' in TrimSpace(word)
    ensures |Fields(TrimSpace(word))| >= 2
    ensures |Fields(MoveLastWord(TrimSpace(word), term).0)| == |Fields(word)| - 1
  {
    TrimSpaceTrimmed(word);
    SpaceMeansTwoFields(TrimSpace(word));
    FieldsOfTrimSpace(word);
    MoveLastWordWords(TrimSpace(word), term);
  }

  /**
   GetLink as a function of the store: the trimmed word is looked up; a miss
   whose word holds a ' ' is retried with its last word moved into the search
   term, any other miss is not found; a hit is recorded, then an alias is
   resolved in turn with the same search term and a URL is filled in.
   Aliases have no cycle guard, so `fuel` bounds the alias hops and None
   means the hops ran out.
   */
  function Resolve(rows: seq<Shortcut>, storeDown: bool, word: string, term: string, fuel: nat): Option<Resolution>
    decreases fuel, |Fields(word)| + 1
  {
    var w := TrimSpace(word);
    if storeDown then Some(Resolution(Failure(StoreFailure(LookupFailed)), []))
    else match Lookup(rows, w)
      case None =>
        if ' ' in w then
          RetryShrinks(word, term);
          var next := MoveLastWord(w, term);
          Resolve(rows, storeDown, next.0, next.1, fuel)
        else Some(Resolution(Failure(InvalidQuery(NotFoundMessage(w, term))), []))
      case Some(row) => HitResolve(rows, row, term, fuel)
  }

  /**
   The resolution after a hit on `row`: the row is recorded, then a URL is
   filled in with the search term and an alias is resolved with the same
   search term and one hop fewer.
   */
  function HitResolve(rows: seq<Shortcut>, row: Shortcut, term: string, fuel: nat): Option<Resolution>
    decreases fuel, 0
  {
    if IsURL(row.link) then Some(Resolution(Success(ProcessResultLink(row.link, term)), [row.id]))
    else if fuel == 0 then None
    else match Resolve(rows, false, row.link, term, fuel - 1)
      case None => None
      case Some(rest) => Some(Resolution(rest.outcome, [row.id] + rest.hits))
  }

  /** A store that fails every call ends the resolution at its first lookup, with nothing recorded. */
  lemma ResolveStoreDown(rows: seq<Shortcut>, word: string, term: string, fuel: nat)
    ensures Resolve(rows, true, word, term, fuel) == Some(Resolution(Failure(StoreFailure(LookupFailed)), []))
  {
  }

  /** A miss whose trimmed word holds a ' ' is the retry with the last word moved into the search term. */
  lemma ResolveRetry(rows: seq<Shortcut>, word: string, term: string, fuel: nat)
    requires Lookup(rows, TrimSpace(word)).None? && ' ' in TrimSpace(word)
    ensures var next := MoveLastWord(TrimSpace(word), term);
      Resolve(rows, false, word, term, fuel) == Resolve(rows, false, next.0, next.1, fuel)
  {
  }

  /** Any other miss is not found, with nothing recorded. */
  lemma ResolveNotFound(rows: seq<Shortcut>, word: string, term: string, fuel: nat)
    requires Lookup(rows, TrimSpace(word)).None? && ' ' !in TrimSpace(word)
    ensures Resolve(rows, false, word, term, fuel)
      == Some(Resolution(Failure(InvalidQuery(NotFoundMessage(TrimSpace(word), term))), []))
  {
  }

  /** A hit goes on as HitResolve. */
  lemma ResolveHit(rows: seq<Shortcut>, word: string, term: string, fuel: nat, row: Shortcut)
    requires Lookup(rows, TrimSpace(word)) == Some(row)
    ensures Resolve(rows, false, word, term, fuel) == HitResolve(rows, row, term, fuel)
  {
  }

  /** A hit on a URL fills it in with the search term, recording that row only. */
  lemma HitURL(rows: seq<Shortcut>, row: Shortcut, term: string, fuel: nat)
    requires IsURL(row.link)
    ensures HitResolve(rows, row, term, fuel) == Some(Resolution(Success(ProcessResultLink(row.link, term)), [row.id]))
  {
  }

  /** A hit on an alias records that row, then resolves the alias with the same search term and one hop fewer. */
  lemma HitAlias(rows: seq<Shortcut>, row: Shortcut, term: string, fuel: nat)
    requires !IsURL(row.link) && HitResolve(rows, row, term, fuel).Some?
    ensures fuel > 0 && Resolve(rows, false, row.link, term, fuel - 1).Some?
    ensures var rest := Resolve(rows, false, row.link, term, fuel - 1).value;
      HitResolve(rows, row, term, fuel).value == Resolution(rest.outcome, [row.id] + rest.hits)
  {
  }

  const NoWordMessage: string := "No word given, cannot setup a golink"
  const SlashMessage: string := "Words ending in a '/' are not supported"
  const NoLinkMessage: string := "No link given, cannot setup a golink"
  const SelfMessage: string := "Word points to itself, will cause a recursive lookup"
  const NotURLMessage: string := "URL must start with http:// or https://"

  /** validateLinkRequest: the checks on the trimmed word and link, in order, the first failure winning. */
  function ValidateLinkRequest(req: LinkRequest): (r: Option<Error>)
    ensures r.Some? ==> r.value.InvalidQuery?
  {
    var word := TrimSpace(req.word);
    var link := TrimSpace(req.link);
    if word == "" then Some(InvalidQuery(NoWordMessage))
    else if HasSuffix(word, "/") then Some(InvalidQuery(SlashMessage))
    else if link == "" then Some(InvalidQuery(NoLinkMessage))
    else if link == word then Some(InvalidQuery(SelfMessage))
    else None
  }

  /** The checks UpdateLink makes before storing: validation, then the untrimmed link must be a URL. */
  function AdmissionError(req: LinkRequest): (r: Option<Error>)
    ensures r.Some? ==> r.value.InvalidQuery?
  {
    var invalid := ValidateLinkRequest(req);
    if invalid.Some? then invalid
    else if !IsURL(req.link) then Some(InvalidQuery(NotURLMessage))
    else None
  }

  /** The listing entries whose link is a URL, in listing order. */
  function UrlsOnly(keywords: seq<KeywordInfo>): seq<KeywordInfo>
  {
    if keywords == [] then []
    else
      var last := keywords[|keywords| - 1];
      UrlsOnly(keywords[..|keywords| - 1]) + (if IsURL(last.link) then [last] else [])
  }

  /** The link service together with the state of its two repositories. */
  class LinkService {
    /** The shortcut table, oldest row first. */
    var rows: seq<Shortcut>
    /** Whether calls to the shortcut repository fail. */
    const storeDown: bool
    /** The shortcut ids the query repository has recorded, oldest first. */
    var logged: seq<int>
    /** Whether calls to the query repository fail. */
    const logDown: bool

    ghost predicate Valid()
      reads this
    {
      IdsIncreasing(rows)
    }

    /** NewLinkService: a service over repositories in the given state. */
    constructor (rows0: seq<Shortcut>, logged0: seq<int>, storeDown0: bool, logDown0: bool)
      requires IdsIncreasing(rows0)
      ensures Valid()
      ensures rows == rows0 && logged == logged0 && storeDown == storeDown0 && logDown == logDown0
    {
      rows := rows0;
      storeDown := storeDown0;
      logged := logged0;
      logDown := logDown0;
    }

    /**
     GetLink: the result is the resolution's outcome, and the query log has
     gained the ids of the rows hit, unless recording fails, which changes
     nothing else.
     */
    method GetLink(word: string, searchTerm: string, ghost fuel: nat) returns (r: Result<string, Error>)
      requires Resolve(rows, storeDown, word, searchTerm, fuel).Some?
      modifies this`logged
      ensures var res := Resolve(rows, storeDown, word, searchTerm, fuel).value;
        r == res.outcome && logged == old(logged) + (if logDown then [] else res.hits)
      decreases fuel, |Fields(word)| + 1
    {
      var w := TrimSpace(word);
      if storeDown {
        ResolveStoreDown(rows, word, searchTerm, fuel);
        return Failure(StoreFailure(LookupFailed));
      }
      var found := Lookup(rows, w);
      match found
      case None =>
        if ' ' in w {
          RetryShrinks(word, searchTerm);
          ResolveRetry(rows, word, searchTerm, fuel);
          var next := MoveLastWord(w, searchTerm);
          r := GetLink(next.0, next.1, fuel);
        } else {
          ResolveNotFound(rows, word, searchTerm, fuel);
          r := Failure(InvalidQuery(NotFoundMessage(w, searchTerm)));
        }
      case Some(row) =>
        ResolveHit(rows, word, searchTerm, fuel, row);
        r := FollowHit(row, searchTerm, fuel);
    }

    /** The part of GetLink after a hit on `row`: record the usage, then follow an alias or fill in the URL. */
    method FollowHit(row: Shortcut, searchTerm: string, ghost fuel: nat) returns (r: Result<string, Error>)
      requires !storeDown && HitResolve(rows, row, searchTerm, fuel).Some?
      modifies this`logged
      ensures var res := HitResolve(rows, row, searchTerm, fuel).value;
        r == res.outcome && logged == old(logged) + (if logDown then [] else res.hits)
      decreases fuel, 0
    {
      ghost var res := HitResolve(rows, row, searchTerm, fuel).value;
      ghost var before := logged;
      if !logDown {
        logged := logged + [row.id];
      }
      if !IsURL(row.link) {
        HitAlias(rows, row, searchTerm, fuel);
        ghost var rest := Resolve(rows, false, row.link, searchTerm, fuel - 1).value;
        assert res.hits == [row.id] + rest.hits;
        r := GetLink(row.link, searchTerm, fuel - 1);
        assert logged == before + (if logDown then [] else [row.id]) + (if logDown then [] else rest.hits);
        assert before + ([row.id] + rest.hits) == before + [row.id] + rest.hits;
      } else {
        HitURL(rows, row, searchTerm, fuel);
        r := Success(ProcessResultLink(row.link, searchTerm));
      }
    }

    /**
     UpdateLink: a request that fails a check is rejected with that check's
     error and stores nothing; otherwise the untrimmed word and link are
     stored as a new row with the next id, unless the store fails.
     */
    method UpdateLink(req: LinkRequest, userID: string, now: int) returns (err: Option<Error>)
      requires Valid()
      modifies this`rows
      ensures Valid()
      ensures AdmissionError(req).Some? ==> err == AdmissionError(req) && rows == old(rows)
      ensures AdmissionError(req).None? && storeDown ==>
        err == Some(StoreFailure(CreateFailed)) && rows == old(rows)
      ensures AdmissionError(req).None? && !storeDown ==>
        err == None && rows == old(rows) + [Shortcut(NextId(old(rows)), req.word, req.link, userID, now)]
    {
      var invalid := ValidateLinkRequest(req);
      if invalid.Some? {
        return invalid;
      }
      if !IsURL(req.link) {
        return Some(InvalidQuery(NotURLMessage));
      }
      if storeDown {
        return Some(StoreFailure(CreateFailed));
      }
      var row := Shortcut(NextId(rows), req.word, req.link, userID, now);
      NextIdIncreases(rows, row);
      rows := rows + [row];
      err := None;
    }

    /** GetAllKeywords: the store's listing cut down to the entries that point at URLs, or the store's error. */
    method GetAllKeywords() returns (r: Result<seq<KeywordInfo>, Error>)
      ensures r == if storeDown then Failure(RepositoryError) else Success(UrlsOnly(Listing(rows)))
    {
      if storeDown {
        return Failure(RepositoryError);
      }
      var keywords := Listing(rows);
      var result: seq<KeywordInfo> := [];
      for i := 0 to |keywords|
        invariant result == UrlsOnly(keywords[..i])
      {
        assert keywords[..i + 1][..i] == keywords[..i];
        if IsURL(keywords[i].link) {
          result := result + [keywords[i]];
        }
      }
      assert keywords[..|keywords|] == keywords;
      return Success(result);
    }
  }
}
