/** The HackerOne fetcher: pages through the program listing, asks for the
    structured scope of every program that offers bounties, and emits the
    bounty-eligible asset identifiers one per line. Requests, decoding and
    the cancellation context are oracles: `pages[j]` is the reply to the
    request for page `j + 1`, `scopes(h)` the reply to the scope request
    for handle `h`, and `cancelled(p)` whether the context is done at the
    check before page `p`. Each reply stands for a `Respond(script, decode)`
    result: one `doRequestWithRetry` followed by `safeUnmarshal`. */
module HackerOne {
  import opened Failures
  import opened Requests
  import Credentials

  datatype Program = Program(handle: string, offersBounties: bool)

  datatype ScopeEntry = ScopeEntry(eligibleForBounty: bool, assetIdentifier: string)

  /** What a request asks for: one page of the program listing, or the
      structured scope of one program. */
  datatype Target = ProgramsPage(number: nat) | StructuredScopes(handle: string)

  /** One `doRequestWithRetry` call, with the Basic-auth token it sends. */
  datatype Request = Get(target: Target, auth: string)

  /** What `Fetch` returns (the count and the error), what it wrote to the
      output (one asset identifier per line), and the requests it made. */
  datatype FetchResult = FetchResult(lines: seq<string>, processed: nat, error: Option<Error>, trace: seq<Request>)

  function Stop(e: Error, trace: seq<Request>): FetchResult {
    FetchResult([], 0, Some(e), trace)
  }

  /** Runs `b` after `a`, which finished without error. */
  function Then(a: FetchResult, b: FetchResult): FetchResult {
    FetchResult(a.lines + b.lines, a.processed + b.processed, b.error, a.trace + b.trace)
  }

  // ---------------------------------------------------------------- filters

  /** The asset identifiers of the entries that are eligible for bounty, in order. */
  function EligibleAssets(entries: seq<ScopeEntry>): (assets: seq<string>)
    ensures |assets| <= |entries|
  {
    if |entries| == 0 then []
    else
      var rest := EligibleAssets(entries[1..]);
      if entries[0].eligibleForBounty then [entries[0].assetIdentifier] + rest else rest
  }

  /** An identifier is emitted exactly when some eligible entry carries it. */
  lemma {:induction false} EligibleAssetsMembers(entries: seq<ScopeEntry>)
    ensures forall a :: a in EligibleAssets(entries) <==>
              exists e :: e in entries && e.eligibleForBounty && e.assetIdentifier == a
    decreases |entries|
  {
    if |entries| > 0 {
      EligibleAssetsMembers(entries[1..]);
      assert forall e :: e in entries <==> e == entries[0] || e in entries[1..];
    }
  }

  /** Filtering works entry by entry: the assets of a concatenation are
      the assets of its parts, in the same order. */
  lemma {:induction false} EligibleAssetsAppend(a: seq<ScopeEntry>, b: seq<ScopeEntry>)
    ensures EligibleAssets(a + b) == EligibleAssets(a) + EligibleAssets(b)
    decreases |a|
  {
    if |a| == 0 {
      assert a + b == b;
    } else {
      assert (a + b)[0] == a[0];
      assert (a + b)[1..] == a[1..] + b;
      EligibleAssetsAppend(a[1..], b);
    }
  }

  /** One entry gives one line exactly when it is eligible for bounty. */
  lemma EligibleAssetsSingle(e: ScopeEntry)
    ensures EligibleAssets([e]) == if e.eligibleForBounty then [e.assetIdentifier] else []
  {
    assert [e][1..] == [];
  }

  /** The handles of the programs that offer bounties, in order. */
  function BountyHandles(progs: seq<Program>): (hs: seq<string>)
    ensures |hs| <= |progs|
  {
    if |progs| == 0 then []
    else
      var rest := BountyHandles(progs[1..]);
      if progs[0].offersBounties then [progs[0].handle] + rest else rest
  }

  /** A handle is kept exactly when some program offering bounties has it. */
  lemma {:induction false} BountyHandlesMembers(progs: seq<Program>)
    ensures forall h :: h in BountyHandles(progs) <==>
              exists p :: p in progs && p.offersBounties && p.handle == h
    decreases |progs|
  {
    if |progs| > 0 {
      BountyHandlesMembers(progs[1..]);
      assert forall p :: p in progs <==> p == progs[0] || p in progs[1..];
    }
  }

  /** Filtering works program by program: the handles of a concatenation
      are the handles of its parts, in the same order. */
  lemma {:induction false} BountyHandlesAppend(a: seq<Program>, b: seq<Program>)
    ensures BountyHandles(a + b) == BountyHandles(a) + BountyHandles(b)
    decreases |a|
  {
    if |a| == 0 {
      assert a + b == b;
    } else {
      assert (a + b)[0] == a[0];
      assert (a + b)[1..] == a[1..] + b;
      BountyHandlesAppend(a[1..], b);
    }
  }

  /** One program contributes its handle exactly when it offers bounties. */
  lemma BountyHandlesSingle(p: Program)
    ensures BountyHandles([p]) == if p.offersBounties then [p.handle] else []
  {
    assert [p][1..] == [];
  }

  // ------------------------------------------------------------ operations

  /** `fetchEligibleAssets`: a failed request or an undecodable body is an
      error; otherwise the eligible assets of the scope. */
  function FetchEligibleAssets(reply: Reply<seq<ScopeEntry>>): (r: Result<seq<string>>)
    ensures r.Success? <==> reply.Decoded?
    ensures r.Success? ==> r.value == EligibleAssets(reply.value)
    ensures reply.RequestFailed? ==> r == Failure(reply.error)
    ensures reply.Undecodable? ==> r == Failure(DecodeError)
  {
    match reply
    case RequestFailed(e) => Failure(e)
    case Undecodable => Failure(DecodeError)
    case Decoded(entries) => Success(EligibleAssets(entries))
  }

  /** `fetchEligibleAssets` end to end: a failed request passes its error
      on unwrapped, an undecodable body gives the decode error, and a
      decoded scope gives its eligible assets. */
  lemma FetchScopeResponse(s: Script, decode: Bytes -> Option<seq<ScopeEntry>>)
    requires WellFormed(s)
    ensures var r := FetchEligibleAssets(Respond(s, decode));
            var sent := Retry(s).result;
            && (sent.Failure? ==> r == Failure(sent.error))
            && (sent.Success? && decode(sent.value).None? ==> r == Failure(DecodeError))
            && (sent.Success? && decode(sent.value).Some? ==>
                  r == Success(EligibleAssets(decode(sent.value).value)))
  {
  }

  /** The inner loop over the programs of one page: programs without
      bounties are skipped; a scope failure stops everything. */
  function ProcessPrograms(progs: seq<Program>, auth: string,
                           scopes: string -> Reply<seq<ScopeEntry>>): FetchResult
    decreases |progs|
  {
    if |progs| == 0 then FetchResult([], 0, None, [])
    else if !progs[0].offersBounties then ProcessPrograms(progs[1..], auth, scopes)
    else
      var h := progs[0].handle;
      var req := Get(StructuredScopes(h), auth);
      match FetchEligibleAssets(scopes(h))
      case Failure(e) => Stop(HandleFailed(h, e), [req])
      case Success(assets) =>
        Then(FetchResult(assets, 1, None, [req]), ProcessPrograms(progs[1..], auth, scopes))
  }

  /** A reply that makes the listing go on to the next page. */
  predicate Continues(reply: Reply<seq<Program>>) {
    reply.Decoded? && |reply.value| > 0
  }

  /** The listing oracle is finite and its last page ends the listing. */
  predicate EndsListing(pages: seq<Reply<seq<Program>>>) {
    |pages| > 0 && !Continues(pages[|pages| - 1])
  }

  /** The outer loop of `Fetch` from page `i + 1` on. */
  function ListFrom(i: nat, auth: string, cancelled: nat -> bool,
                    pages: seq<Reply<seq<Program>>>,
                    scopes: string -> Reply<seq<ScopeEntry>>): FetchResult
    requires i < |pages| && EndsListing(pages)
    decreases |pages| - i
  {
    var page := i + 1;
    if cancelled(page) then Stop(ContextErr, [])
    else
      var req := Get(ProgramsPage(page), auth);
      match pages[i]
      case RequestFailed(e) => Stop(PageRequestFailed(e), [req])
      case Undecodable => Stop(DecodeError, [req])
      case Decoded(progs) =>
        if |progs| == 0 then FetchResult([], 0, None, [req])
        else
          var done := Then(FetchResult([], 0, None, [req]), ProcessPrograms(progs, auth, scopes));
          if done.error.Some? then done
          else Then(done, ListFrom(i + 1, auth, cancelled, pages, scopes))
  }

  /** `hackerOneFetcher.Fetch`. */
  function Fetch(apiKey: string, encode: string -> string, cancelled: nat -> bool,
                 pages: seq<Reply<seq<Program>>>,
                 scopes: string -> Reply<seq<ScopeEntry>>): (r: FetchResult)
    requires EndsListing(pages)
    ensures ':' !in apiKey ==> r == Stop(InvalidCredentialFormat, [])
    ensures ':' in apiKey ==> r == ListFrom(0, encode(apiKey), cancelled, pages, scopes)
  {
    match Credentials.BasicAuth(apiKey, encode)
    case Failure(e) => Stop(e, [])
    case Success(auth) => ListFrom(0, auth, cancelled, pages, scopes)
  }
}
