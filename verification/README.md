# HackerOne bounty-scope fetcher, modelled in Dafny

This project models the sequential control logic of a small Go command-line tool. The tool lists bug-bounty programs on the HackerOne API and writes the bounty-eligible asset identifiers of every program that offers bounties to an output stream, one per line. The model covers four parts:

- **Credential normalizer** (`sanitizeKey`, module `Sanitize`): deletes every whitespace rune of a credential and keeps the other runes in order. Go's `unicode.IsSpace` is written out: the Latin-1 spaces plus the Unicode White_Space code points.
- **Credential split** (start of `hackerOneFetcher.Fetch`, module `Credentials`): `strings.SplitN(apiKey, ":", 2)` either rejects the input or cuts it at the first `:`. The halves are rejoined and Base64-encoded (section 4 of RFC 4648) into the Basic-auth token. The encoder is a parameter `encode`.
- **Status classification and retry** (`doRequest`, `doRequestWithRetry`, module `Requests`): each attempt's observation is an oracle value `Timeout | OtherErr | Status(code, body)`. Each backoff wait ends `Cancelled | Elapsed`. `Retry` returns the result, the number of attempts and the delays requested. `Respond` puts a retried request and the JSON decoder together.
- **Pagination, filter and emit loop** (`Fetch`, `fetchEligibleAssets`, modules `HackerOne` and `FetchProperties`): `Fetch` reads three oracles.
  - `pages[j]` is the decoded reply for listing page `j + 1`.
  - `scopes(h)` is the decoded reply for the structured scope of handle `h`.
  - `cancelled(p)` is the state of the context at the check before page `p`.

  The result is the lines written, the processed count, the optional error and the trace of requests made.

`FetchProperties` states what `Fetch` does against reference definitions. The predicate `Explains` describes one run of the listing loop:
- the pages requested, in order, and the cancellation checks they passed;
- the order of all requests: each page request, then the scope requests for that page's bounty handles (`Segments`);
- the bounty handles of those pages (`HandlesOf`) that the scope requests follow;
- the lines written (`Emitted`), which cover exactly the counted programs;
- the reason for stopping, named by the error; a scope failure is on the last page requested, after every bounty program of the earlier pages was counted.

The description is complete: a result satisfies `Explains` exactly when it is the loop's result (`ListFromExactly`, from `ExplainsUnique`).

Some behaviours of the code are easy to misread; the model follows the code:
- Only timeouts are retried. A status of 500 or more becomes an "API unavailable" error, and the retry test looks for the words "deadline exceeded" in the error text, so that error ends the loop like a 4xx does (`StatusErrorsNotRetried`).
- The comment at main.go:124 gives the waits as 1 s, 2 s, 4 s. The code shifts one left by the attempt index, so it waits 2 s before the second attempt and 4 s before the third, and never 1 s (`RetryFrom`, `Retry`, `RetryAlwaysTimesOut`).
- A program whose scope request fails writes nothing. The code collects all of that program's assets before writing any (`ProgramsMeetSpec`).
- The code's own wraps add no page number. Page-request errors are wrapped without one, and a page decode error is returned unwrapped (`PageRequestFailed` versus `DecodeError` in `StopsFor`). A transport or timeout error names the page only through the URL that Go's HTTP client puts in its text.

## Model

| member | source | states |
|---|---|---|
| Sanitize.IsSpaceIsWhiteSpace | main.go:24 | the whitespace test holds exactly for the code points of the Unicode White_Space ranges |
| Sanitize.SanitizeKey | main.go:22-29 | the sanitized key contains no whitespace rune and is no longer than the input |
| Sanitize.SanitizeAppend | main.go:22-29 | sanitizing maps rune by rune: the key of a concatenation is the concatenation of the keys |
| Sanitize.SanitizeRune | main.go:23-28 | a single rune is deleted exactly when `unicode.IsSpace` holds for it |
| Sanitize.SanitizeFixedPoints | main.go:22-29 | sanitizing leaves a string unchanged if and only if it has no whitespace |
| Sanitize.SanitizeIdempotent | main.go:22-29 | sanitizing twice is the same as sanitizing once |
| Sanitize.SanitizeCounts | main.go:22-29 | whitespace runes all disappear and every other rune keeps its number of occurrences |
| Credentials.IndexOf | main.go:67 | the separator search finds the first `:` or reports that there is none |
| Credentials.SplitN2 | main.go:67-68 | one part exactly when there is no `:`; otherwise a colon-free username that, rejoined with `:` and the key, gives back the input |
| Credentials.SplitJoin | main.go:67-71 | splitting `username:key` with a colon-free username returns exactly that username and key |
| Credentials.BasicAuth | main.go:66-72 | fails with the format error if and only if there is no `:`; otherwise the token is the encoding of the original credential string |
| Requests.Classify | main.go:184-195 | 500 and up is "unavailable", 400 to 499 a client error, below 400 success with the body; no outcome gives both; only a timeout is retryable |
| Requests.RetryFrom | main.go:121-144 | the loop from attempt `a`: a cancelled wait before it makes no attempt and returns the context error; earlier attempts timed out with elapsed waits; the first non-timeout is returned as classified; three timeouts are wrapped; each wait is one second shifted left by the index of the attempt it precedes |
| Requests.Retry | main.go:120-145 | at most three attempts; every attempt but the last timed out; first success or non-timeout error is returned as is; a cancelled wait returns the context error without another attempt; three timeouts return the last one wrapped; waits of 2 s then 4 s |
| Requests.RetryAlwaysTimesOut | main.go:122-144 | three timeouts give three attempts, delays of 2 s and 4 s, and the wrapped timeout |
| Requests.StatusErrorsNotRetried | main.go:133-142 | any status of 400 or more, including 5xx, ends the loop after one attempt, without waiting |
| Requests.Respond | main.go:147-157 | a failed request never reaches the decoder; a decoded value comes from the body the retry loop returned |
| HackerOne.EligibleAssetsAppend | main.go:159-164 | the assets of a concatenation of scope entries are the assets of the parts, in the same order |
| HackerOne.EligibleAssetsSingle | main.go:160-162 | one entry gives its identifier as one line exactly when it is eligible for bounty, and nothing otherwise |
| HackerOne.EligibleAssetsMembers | main.go:159-164 | an identifier is emitted if and only if some scope entry eligible for bounty carries it |
| HackerOne.BountyHandlesAppend | main.go:97-101 | the bounty handles of a concatenation of programs are the handles of the parts, in the same order |
| HackerOne.BountyHandlesSingle | main.go:98-101 | one program contributes its handle exactly when it offers bounties |
| HackerOne.BountyHandlesMembers | main.go:97-101 | a handle is kept if and only if some program offering bounties has it |
| HackerOne.FetchEligibleAssets | main.go:147-166 | succeeds exactly when the scope reply decoded, then with its eligible assets; otherwise passes on the request or decode error |
| HackerOne.FetchScopeResponse | main.go:147-166 | a scope fetch through the retried request and the decoder passes a request error on unwrapped, turns an undecodable body into the decode error, and otherwise gives the eligible assets of the decoded scope |
| HackerOne.Fetch | main.go:62-73 | without a `:` the fetch fails at once with nothing counted or requested; otherwise it runs the listing loop with the encoding of the original credential string |
| FetchProperties.ProgramsMeetSpec | main.go:97-113 | scope requests follow the bounty handles in page order; lines are the eligible assets of the completed programs; the count is the number of completed programs; a scope failure stops the loop, wrapped with its handle, uncounted and with no lines |
| FetchProperties.ProgramsExactly | main.go:97-113 | a result meets the inner-loop description exactly when it is what the loop over the page's programs returns |
| FetchProperties.ProgramsCompleteIff | main.go:97-113 | the inner loop ends without error if and only if every bounty program's scope decodes |
| FetchProperties.ListFromMeetsSpec | main.go:75-114 | every run of the listing loop satisfies `Explains`: consecutive pages, cancellation checked before each, each page request followed by the scope requests for its bounty handles, lines and count following those handles, and the stop reason named by the error, a scope failure only on the last page |
| FetchProperties.ListFromExactly | main.go:75-114 | a result satisfies `Explains` exactly when it is the listing loop's result, so `Explains` determines the run |
| FetchProperties.FetchMeetsSpec | main.go:62-117 | with valid credentials, `Fetch` satisfies `Explains` from page 1 under the encoded token |
| FetchProperties.FetchExactly | main.go:62-117 | with valid credentials, a result satisfies `Explains` from page 1 under the encoded token exactly when `Fetch` returns it |
| FetchProperties.FetchPagesInOrder | main.go:75-83 | listing pages are requested as 1, 2, 3, ... and every request carries the credential token |
| FetchProperties.FetchStopsAtEmptyPage | main.go:93-95 | no page after the first empty page is ever requested |
| FetchProperties.FetchStopsWhenCancelled | main.go:75-80 | once the check before page p sees cancellation, no page from p on is requested |
| FetchProperties.FetchCancelledResult | main.go:76-78 | the context error comes only from the check after the last requested page, with every bounty program of the requested pages counted |
| FetchProperties.FetchOnlyBountyScopes | main.go:97-104 | a scope is requested only for a program that offers bounties on a requested page |
| FetchProperties.FetchCompleteRun | main.go:75-116 | if every page up to the first empty one arrives uncancelled and all their bounty scopes decode, the run ends without error, requests exactly those pages, counts every bounty program and writes exactly their eligible assets in order |
| FetchProperties.FetchSingleProgram | main.go:97-112 | one bounty program "acme" with one eligible asset writes exactly that line and counts one program |
| FetchProperties.FetchFiltersIneligible | main.go:97-112 | a program without bounties triggers no scope request, and an ineligible scope entry writes no line |

## Left out

- Real HTTP (building the request, setting headers, `client.Do`, reading the body): network I/O. It is replaced by the per-attempt `Outcome` oracle.
- JSON decoding: library code. A decoder is an oracle returning a decoded page or nothing. `safeUnmarshal` returns no error after a recovered panic and leaves the page as decoded so far. Any decoded page the oracle returns covers that case.
- Timers, the 30 s client timeout and the context deadline: timing and concurrency. They become `Timeout` outcomes, `Cancelled` waits and the `cancelled` check oracle. The oracles are independent, so a context that stays done once it has fired is one special case.
- The Base64 encoder: library code, passed in as `encode`.
- Formatting the URLs: only the page number and the handle matter, kept as `Target` values. The progress line printed to standard output is also left out, and so are write errors on the output, which the code ignores.
- `main`: flag parsing, file handling, fatal exits and the platform table. This is command-line plumbing. The placeholder fetcher for other platforms always fails and is not modelled either.
- Requests.Classify: a status error (4xx or 5xx) carries only its code, not the status text. The code retries on any error text that mentions "deadline exceeded", so a status error whose text contains those words would be retried. The model does not represent that, and `StatusErrorsNotRetried` rests on it.
- HackerOne.Fetch: the listing oracle is a finite sequence whose last page ends the listing. A server that never sends an empty page keeps the code's loop running until the context is done; that case is modelled only up to the first cancelled check.
- HackerOne.Fetch: the scope oracle answers by handle, so two requests for the same handle get the same reply.
- The errors `Transport`, `DeadlineExceeded` and `Exhausted` do not carry the request URL that Go's HTTP client puts in a transport or timeout error's text, so the page number or handle inside that text is not modelled. A request-building or transport error whose quoted URL contains the words "deadline exceeded" is retried like a timeout. A `Timeout` outcome already stands for any such error, but the scope oracle does not derive it from the handle. Status, body-read and decode errors never carry the URL.
- Sanitize.SanitizeKey: a string is its sequence of runes. The code replaces bytes that are not valid UTF-8 with U+FFFD; that step is not modelled.
- HackerOne.Fetch: the processed count and the page counter are unbounded naturals. Go's `int` would overflow only after far more pages than any run reaches.
