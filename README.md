# GoLinks link service, modelled in Dafny

GoLinks is a "go/" link shortener. A user stores a keyword pointing at a URL and later types
`go/<keyword> <search words>`. This project models the service at the heart of it,
`internal/service/link.go`, together with the guarantees its code and tests rely on.

- **Resolving a query (`GetLink`).** The service trims the query and looks up the keyword.
  - On a miss, if the query holds a space, it moves the query's last word into the search term (`moveLastWord`) and tries again.
  - On a hit, it records one usage entry in the query log.
  - If the stored target is another keyword (an alias), it resolves that keyword with the same search term.
  - If the target is an `http://` or `https://` URL, it fills every `{*}` placeholder with the trimmed, query-escaped search term (`processResultLink`).
- **Storing a keyword (`UpdateLink`, `validateLinkRequest`).** The service applies ordered checks on the trimmed keyword and link, then checks that the untrimmed link is a URL. It then appends a new row to the shortcut table.
- **Listing keywords (`GetAllKeywords`).** The service filters the table's listing down to the entries whose target is a URL.

The Go string functions the service uses are modelled exactly, in module `Text` (characters are Unicode scalar values):

- `unicode.IsSpace`
- `strings.TrimSpace`, `Fields`, `Join`, `HasPrefix`, `HasSuffix` and `ReplaceAll`

`url.QueryEscape` is modelled in module `UrlEscape` by its per-byte rule over the UTF-8 encoding:

- the unreserved characters of section 2.3 of RFC 3986 stay as they are;
- a space becomes `+`;
- every other byte becomes `%XX` with upper-case hexadecimal digits.

The two repositories the service talks to are the state of the `LinkService` class, with one flag per repository saying whether its calls fail:

- `rows` holds the shortcut table, oldest row first;
- `logged` holds the ids the query log has recorded.

What the service needs from the SQL behind them is stated as functions in module `Repository`:

- a lookup returns the newest row stored under exactly that word;
- the listing shows the newest row of every word, newest first;
- a new row gets an id larger than every earlier one.

Alias chains have no cycle guard in the source. The specification function `Service.Resolve` therefore counts alias hops with a `fuel` bound, and answers `None` when the hops run out. The `GetLink` method is proved for every query that resolves within some bound.

Modules, in dependency order:

| module | holds |
|---|---|
| `Wrappers` | `Option` and `Result` |
| `Text` | the Go string functions |
| `UrlEscape` | the query escape and its decoder |
| `LinkHelpers` | `isURL`, `processResultLink`, `moveLastWord` and their laws |
| `Repository` | the table and what its lookup and listing return |
| `Service` | the `LinkService` class, the specification functions of resolution and validation, and their step lemmas |
| `ServiceProperties` | the properties that relate several calls |

## Model

| member | source | states |
|---|---|---|
| Text.TrimSpaceIdempotent | internal/service/link.go:55 | Trimming a trimmed query changes nothing, so trimming again inside a retry is harmless. |
| Text.TrimSpaceTrimmed | internal/service/link.go:55 | TrimSpace leaves no space character at either end. |
| Text.FieldsOfTrimSpace | internal/service/link.go:55 | Trimming a query changes none of its words. |
| Text.FieldsEmptyIffAllSpace | internal/service/link.go:213-215 | strings.Fields finds no word exactly when the string is all space characters. |
| Text.FieldsOfJoin | internal/service/link.go:221-222 | Splitting words joined by single spaces gives the same words back. |
| Text.JoinOfWordsTrimmed | internal/service/link.go:221-222 | Words joined by single spaces have no outer space; with one word the result holds no ' ', and with two or more it holds one. |
| Text.SpaceMeansTwoFields | internal/service/link.go:66 | A trimmed query that contains ' ' has at least two words. |
| Text.FieldsAround | internal/service/link.go:213 | A space character splits the words of a string into the words on its two sides. |
| Text.ReplaceAllAbsent | internal/service/link.go:207 | strings.ReplaceAll leaves a string without the pattern unchanged. |
| UrlEscape.EscapeBytesAlphabet | internal/service/link.go:204 | Every character the query escape emits is unreserved, '+' or '%'. |
| UrlEscape.UnescapeEscapeBytes | internal/service/link.go:204 | Decoding the escape of any byte string gives those bytes back, so the escape loses nothing. |
| UrlEscape.QueryEscapeRoundTrip | internal/service/link.go:204 | Decoding url.QueryEscape of a string gives back the string's UTF-8 bytes. |
| UrlEscape.QueryEscapePlain | internal/service/link_test.go:373-377 | A string of unreserved characters and spaces is escaped by turning each space into '+', so "hello world" becomes "hello+world". |
| LinkHelpers.IsURLExamples | internal/service/link_test.go:325-345 | "http://…" and "https://…" are URLs; "docs", "" and "ftp://…" are not. |
| LinkHelpers.EncodedTermAlphabet | internal/service/link.go:202-204 | The substituted term holds only unreserved characters, '+' and '%'. |
| LinkHelpers.EncodedTermDecodes | internal/service/link.go:202-204 | The substituted term decodes to the UTF-8 bytes of the search term with every "{*}" deleted and the result trimmed. |
| LinkHelpers.SplitOnToken | internal/service/link.go:207 | Cutting a link at its "{*}" placeholders gives pieces free of placeholders that join back, with "{*}" between them, into the link. |
| LinkHelpers.ReplaceAfterPiece | internal/service/link.go:207 | ReplaceAll passes a placeholder-free piece through unchanged and replaces the placeholder that follows it. |
| LinkHelpers.ReplaceJoin | internal/service/link.go:207 | ReplaceAll of the placeholder joins placeholder-free pieces by the replacement instead. |
| LinkHelpers.ProcessResultLinkFillsEveryToken | internal/service/link.go:200-209 | The result is the link's placeholder-free pieces joined by one and the same encoded term, then trimmed, so every "{*}" gets that term. |
| LinkHelpers.ProcessResultLinkWithoutToken | internal/service/link.go:200-209 | A link without "{*}" comes back only trimmed, whatever the search term. |
| LinkHelpers.MoveLastWordWords | internal/service/link.go:212-225 | With no word in `from`, both strings come back unchanged. Otherwise `from` keeps all its words but the last, which goes in front of the words of `to`. The two word lists together are the words of `from` followed by those of `to`, and both results are their words joined by single spaces. |
| Repository.LookupSpec | internal/repository/shortcut.go:33-39 | A lookup misses exactly when no row carries the word. A hit is a row of the table with that word, and the one with the largest id. |
| Repository.NextIdIncreases | internal/repository/shortcut.go:83 | Appending a row with the next id keeps the ids increasing along the table. |
| Repository.LookupAfterAppend | internal/repository/shortcut.go:33-39 | After a row is appended, a lookup of its word finds it, and every other word's lookup is unchanged. |
| Repository.LookupWithout | internal/repository/shortcut.go:99-104 | Dropping one word's rows changes the lookup of no other word. |
| Repository.ListingIsLive | internal/repository/shortcut.go:99-104 | An entry is in the listing exactly when it is the newest row of its word, the row a lookup of that word returns. |
| Repository.ListingWordsDistinct | internal/repository/shortcut.go:99-104 | The listing has one entry per word: no two entries share a word. |
| Service.RetryShrinks | internal/service/link.go:66-69 | A miss whose trimmed query holds ' ' retries with exactly one word fewer, so the retries end. |
| Service.ResolveStoreDown | internal/service/link.go:58-62 | When the store fails every call, resolution ends at the first lookup with the wrapped "failed to get shortcut" error, not an InvalidQueryError, and records nothing. |
| Service.ResolveRetry | internal/service/link.go:64-69 | A miss on a trimmed query holding ' ' resolves as the query with its last word moved into the search term. |
| Service.ResolveNotFound | internal/service/link.go:72-76 | Any other miss is an InvalidQueryError "Unable to find link for query <trimmed word> <search term>", with nothing recorded. |
| Service.ResolveHit | internal/service/link.go:79-85 | A hit goes on from the row the lookup returned. |
| Service.HitURL | internal/service/link.go:94-97 | A hit on a URL gives processResultLink of the link and the search term, and records that row only. |
| Service.HitAlias | internal/service/link.go:82-92 | A hit on an alias records the row first, then resolves the alias with the unchanged search term, keeping that outcome. |
| Service.ValidateLinkRequest | internal/service/link.go:171-192 | Every rejection validateLinkRequest makes is an InvalidQueryError. |
| Service.AdmissionError | internal/service/link.go:104-116 | Every rejection UpdateLink makes before storing is an InvalidQueryError. |
| Service.LinkService.constructor | internal/service/link.go:35-42 | A new service works on the given repositories: the given table, the records its query log already holds, and their failure flags. |
| Service.LinkService.GetLink | internal/service/link.go:54-98 | The result is the outcome of Resolve. The query log gains exactly the ids of the rows hit, in order, and gains nothing if recording fails, which leaves the result unchanged. |
| Service.LinkService.FollowHit | internal/service/link.go:79-97 | After a hit, the result and the log growth are those of HitResolve: the row's id comes first, then those of the alias chain. |
| Service.LinkService.UpdateLink | internal/service/link.go:101-132 | A request that fails a check gets that check's error and stores nothing. A failing store gives the wrapped "failed to create shortcut" error and stores nothing. Otherwise exactly one row is appended, holding the untrimmed word and link, the user and the next id, and ids stay increasing. |
| Service.LinkService.GetAllKeywords | internal/service/link.go:149-168 | The result is the store's listing filtered to URL targets, in listing order; if the store fails, the store's error comes back unwrapped with no result. |
| ServiceProperties.ResolveFuelMonotone | internal/service/link.go:88-92 | Allowing more alias hops never changes a resolution that already ended. |
| ServiceProperties.HitFuelMonotone | internal/service/link.go:88-92 | The same after a hit. |
| ServiceProperties.LongestKnownPrefixSpec | internal/service/link.go:64-69 | The prefix length found is a known keyword, and no longer prefix up to the bound is. |
| ServiceProperties.StageShape | internal/service/link.go:55 | Each retry's query is already trimmed. From its second word on it holds ' '; at one word it holds none. |
| ServiceProperties.StageRetry | internal/service/link.go:67 | moveLastWord on the attempt with k words is the attempt with k − 1 words. |
| ServiceProperties.StagesDescend | internal/service/link.go:64-77 | From the attempt with k words, resolution is that of the longest known prefix of at most k words; if there is none, the first word is not found. |
| ServiceProperties.MoveLastWordIsStage | internal/service/link.go:212-225 | moveLastWord of a string with at least two words is the attempt with all but its last word. |
| ServiceProperties.FirstRetry | internal/service/link.go:66-67 | A trimmed query holding ' ' has at least two words, and its first retry is the attempt with all but its last word. |
| ServiceProperties.SplitFindsLongestKnownPrefix | internal/service/link.go:55-77 | An unknown query with ' ' resolves as its longest known prefix of words. The words after that prefix go, single-spaced, in front of the search term's words. If no prefix is known, the error names the first word and the rest single-spaced. |
| ServiceProperties.ResolveHitsAreRows | internal/service/link.go:79-85 | Every recorded id is a row's id and a success records at least one hit; when the store fails on every call, nothing is recorded. |
| ServiceProperties.HitHitsAreRows | internal/service/link.go:82-92 | After a hit, the hit row is recorded first and every recorded id is a row's id. |
| ServiceProperties.URLTableNeedsNoHops | internal/service/link.go:88-97 | In a table whose targets are all URLs, every query resolves without following an alias. |
| ServiceProperties.AdmittedKeepsAllURLs | internal/service/link.go:110-128 | UpdateLink only stores URL targets, so it keeps a table of URLs one. |
| ServiceProperties.HitCycleDiverges | internal/service/link.go:55-92 | After a hit on one of two keywords whose links, once trimmed, name each other, resolution never ends, however many hops are allowed. |
| ServiceProperties.AliasCycleDiverges | internal/service/link.go:55-92 | A query that trims to one of two keywords whose links, once trimmed, name each other never resolves, however many hops are allowed. |
| ServiceProperties.ResolveAfterUpdate | internal/service/link.go:118-128 | After a trimmed keyword is stored, every query that trims to it resolves to the new link filled with the search term, recording the new row only: the newest row wins. |
| ServiceProperties.PaddedKeywordUnreachable | internal/service/link.go:118-120 | A keyword stored with outer spaces is never found, since every lookup is of a trimmed query. |
| ServiceProperties.AdmissionRejectsFirstViolated | internal/service/link.go:171-192 | The rules run in order (empty word, trailing '/', empty link, self-reference, not a URL), and the first rule a request violates gives the message returned. |
| ServiceProperties.AdmissionAcceptsIffNoViolation | internal/service/link.go:104-116 | UpdateLink admits a request exactly when it violates none of the five rules. |
| ServiceProperties.ValidationIgnoresScheme | internal/service/link.go:171-192 | validateLinkRequest alone accepts exactly the requests violating none of the first four rules, whatever the link's scheme. |
| ServiceProperties.LeadingSpaceLinkRefused | internal/service/link.go:111-116 | The URL check runs on the untrimmed link, so a link with a leading space passes validation and is still refused. |
| ServiceProperties.UrlsOnlyMembers | internal/service/link.go:159-164 | The filter keeps exactly the entries pointing at URLs. |
| ServiceProperties.UrlsOnlyAppend | internal/service/link.go:159-164 | The filter keeps the listing's order: filtering a concatenation concatenates the filtered parts. |
| ServiceProperties.ListingShowsLiveURLs | internal/service/link.go:149-168 | GetAllKeywords lists exactly the newest row of each word whose link is a URL. |

## Left out

- GetRecentQueries (internal/service/link.go:135-146) is not modelled. It only forwards a three-day window and a limit of 20 to the query repository and returns that answer or error unchanged. The answer itself is a clock-dependent SQL aggregation.
- Service.LinkService.GetLink: modelled only for queries that resolve within a ghost bound on alias hops. Its precondition `Resolve(...).Some?` excludes a cyclic alias chain, which in the source recurses without end; AliasCycleDiverges shows that no bound is enough for such a chain.
- Service.LinkService.FollowHit: bounded in the same way as GetLink.
- Service.ValidateLinkRequest: its own contract says only that every rejection is an InvalidQueryError. ServiceProperties.AdmissionRejectsFirstViolated and ServiceProperties.ValidationIgnoresScheme state which message comes for which request.
- Service.AdmissionError: the same; ServiceProperties.AdmissionRejectsFirstViolated and ServiceProperties.AdmissionAcceptsIffNoViolation state the messages and when a request is admitted.
- Repository failures are one fixed flag per repository for the lifetime of the object, not a failure chosen call by call. The model therefore cannot express two cases. One is a lookup that fails part-way through a retry or alias chain: the source (internal/service/link.go:58-62, 82, 91) returns the wrapped lookup error with the earlier hits already in the query log. The other is a query log that fails on some hits and records others.
- The error a repository reports is not modelled. A wrapped error keeps only the text the service puts in front of it (`%w` with "failed to get shortcut" or "failed to create shortcut"). An error returned unwrapped is `RepositoryError`.
- The SQL behind the repositories is not verified. The lookup, the listing and the next id are stated as functions that follow the queries in internal/repository/shortcut.go.
- The creation time is the `now` parameter of UpdateLink. The source's `time.Now()` and the table's `CURRENT_TIMESTAMP` are clocks.
- The `ctx` argument, every logger call, the HTTP handlers, the document service, configuration and the entry point are not modelled.
- Strings are sequences of Unicode scalar values. Go strings holding invalid UTF-8 are not modelled.
- The concrete cases of internal/service/link_test.go for processResultLink, moveLastWord and GetLink are covered by the general lemmas above rather than one lemma per case. The exceptions are IsURLExamples and QueryEscapePlain.
