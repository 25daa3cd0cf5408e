/** What `Fetch` promises, stated against reference definitions: which
    pages it requests, which scopes it asks for, which lines it writes,
    what it counts, and why it stops. */
module FetchProperties {
  import opened Failures
  import opened Requests
  import opened HackerOne

  // ------------------------------------------------- reference definitions

  /** The numbers of the listing pages requested, in request order. */
  function PageNumbers(trace: seq<Request>): seq<nat> {
    if |trace| == 0 then []
    else
      var rest := PageNumbers(trace[1..]);
      if trace[0].target.ProgramsPage? then [trace[0].target.number] + rest else rest
  }

  /** The handles whose scope was requested, in request order. */
  function ScopeHandles(trace: seq<Request>): seq<string> {
    if |trace| == 0 then []
    else
      var rest := ScopeHandles(trace[1..]);
      if trace[0].target.StructuredScopes? then [trace[0].target.handle] + rest else rest
  }

  /** The bounty handles a listing reply contributes. */
  function PageHandles(reply: Reply<seq<Program>>): seq<string> {
    if reply.Decoded? then BountyHandles(reply.value) else []
  }

  /** The bounty handles of listing pages `i + 1` to `i + n`, page after page. */
  function HandlesOf(pages: seq<Reply<seq<Program>>>, i: nat, n: nat): seq<string>
    requires i + n <= |pages|
    decreases n
  {
    if n == 0 then [] else PageHandles(pages[i]) + HandlesOf(pages, i + 1, n - 1)
  }

  /** The lines one program contributes when its scope is fetched. */
  function AssetsFor(scopes: string -> Reply<seq<ScopeEntry>>, h: string): seq<string> {
    if scopes(h).Decoded? then EligibleAssets(scopes(h).value) else []
  }

  /** The lines written for the programs `hs`, one program after another. */
  function Emitted(hs: seq<string>, scopes: string -> Reply<seq<ScopeEntry>>): seq<string> {
    if |hs| == 0 then [] else AssetsFor(scopes, hs[0]) + Emitted(hs[1..], scopes)
  }

  /** The scope requests for the handles `hs`, in order. */
  function ScopeRequests(hs: seq<string>, auth: string): seq<Request> {
    if |hs| == 0 then [] else [Get(StructuredScopes(hs[0]), auth)] + ScopeRequests(hs[1..], auth)
  }

  /** The requests for listing pages `i + 1` to `i + n` when every bounty
      scope on them is requested: each page request is followed by the
      scope requests for that page's bounty handles. */
  function Segments(pages: seq<Reply<seq<Program>>>, i: nat, n: nat, auth: string): seq<Request>
    requires i + n <= |pages|
    decreases n
  {
    if n == 0 then []
    else [Get(ProgramsPage(i + 1), auth)] + ScopeRequests(PageHandles(pages[i]), auth)
         + Segments(pages, i + 1, n - 1, auth)
  }

  predicate IsPrefix(a: seq<Request>, b: seq<Request>) {
    |a| <= |b| && forall j :: 0 <= j < |a| ==> a[j] == b[j]
  }

  // ------------------------------------------------------ sequence helpers

  /** Every request is a page request or a scope request. */
  lemma {:induction false} TraceSplits(t: seq<Request>)
    ensures |t| == |PageNumbers(t)| + |ScopeHandles(t)|
    decreases |t|
  {
    if |t| > 0 {
      TraceSplits(t[1..]);
    }
  }

  lemma {:induction false} ScopeRequestsAt(hs: seq<string>, auth: string)
    ensures |ScopeRequests(hs, auth)| == |hs|
    ensures forall j :: 0 <= j < |hs| ==> ScopeRequests(hs, auth)[j] == Get(StructuredScopes(hs[j]), auth)
    decreases |hs|
  {
    if |hs| > 0 {
      ScopeRequestsAt(hs[1..], auth);
    }
  }

  lemma PrefixCons(x: seq<Request>, a: seq<Request>, b: seq<Request>, y: seq<Request>)
    requires IsPrefix(a, b) && y == x + b
    ensures IsPrefix(x + a, y)
  {
    forall j | 0 <= j < |x + a| ensures (x + a)[j] == y[j] {
      if j >= |x| {
        assert (x + a)[j] == a[j - |x|];
      }
    }
  }

  lemma {:induction false} PageNumbersAppend(a: seq<Request>, b: seq<Request>)
    ensures PageNumbers(a + b) == PageNumbers(a) + PageNumbers(b)
    decreases |a|
  {
    if |a| == 0 {
      assert a + b == b;
    } else {
      assert (a + b)[1..] == a[1..] + b;
      PageNumbersAppend(a[1..], b);
    }
  }

  lemma {:induction false} ScopeHandlesAppend(a: seq<Request>, b: seq<Request>)
    ensures ScopeHandles(a + b) == ScopeHandles(a) + ScopeHandles(b)
    decreases |a|
  {
    if |a| == 0 {
      assert a + b == b;
    } else {
      assert (a + b)[1..] == a[1..] + b;
      ScopeHandlesAppend(a[1..], b);
    }
  }

  lemma {:induction false} EmittedAppend(a: seq<string>, b: seq<string>, scopes: string -> Reply<seq<ScopeEntry>>)
    ensures Emitted(a + b, scopes) == Emitted(a, scopes) + Emitted(b, scopes)
    decreases |a|
  {
    if |a| == 0 {
      assert a + b == b;
    } else {
      assert (a + b)[1..] == a[1..] + b;
      EmittedAppend(a[1..], b, scopes);
    }
  }

  /** A trace made only of scope requests for `hs`, in order. */
  lemma {:induction false} ScopeOnlyTrace(t: seq<Request>, hs: seq<string>, auth: string)
    requires |t| <= |hs|
    requires forall j :: 0 <= j < |t| ==> t[j] == Get(StructuredScopes(hs[j]), auth)
    ensures PageNumbers(t) == []
    ensures ScopeHandles(t) == hs[..|t|]
    decreases |t|
  {
    if |t| > 0 {
      ScopeOnlyTrace(t[1..], hs[1..], auth);
      assert hs[..|t|] == [hs[0]] + hs[1..][..|t| - 1];
    }
  }

  // ------------------------------------------------- the inner page loop

  /** The inner loop asked for the scopes of a prefix of the bounty handles
      `hs` in order, wrote the eligible assets of those it completed and
      counted them, and stopped only at a scope failure, which it neither
      counted nor wrote. */
  ghost predicate CoversHandles(r: FetchResult, hs: seq<string>, auth: string,
                                scopes: string -> Reply<seq<ScopeEntry>>)
  {
    && r.processed <= |r.trace| <= |hs|
    && (forall j :: 0 <= j < |r.trace| ==> r.trace[j] == Get(StructuredScopes(hs[j]), auth))
    && r.lines == Emitted(hs[..r.processed], scopes)
    && (forall k :: 0 <= k < r.processed ==> scopes(hs[k]).Decoded?)
    && (r.error.None? ==> r.processed == |r.trace| == |hs|)
    && (r.error.Some? ==>
          && |r.trace| == r.processed + 1
          && r.error.value.HandleFailed?
          && r.error.value.handle == hs[r.processed]
          && FetchEligibleAssets(scopes(hs[r.processed])) == Failure(r.error.value.cause))
  }

  /** The requests of a covered inner loop are scope requests for the
      handles in order, all of them when the loop completed. */
  lemma CoveredTrace(r: FetchResult, hs: seq<string>, auth: string,
                     scopes: string -> Reply<seq<ScopeEntry>>)
    requires CoversHandles(r, hs, auth, scopes)
    ensures IsPrefix(r.trace, ScopeRequests(hs, auth))
    ensures r.error.None? ==> r.trace == ScopeRequests(hs, auth)
  {
    ScopeRequestsAt(hs, auth);
  }

  /** A completed bounty program in front of a covered rest. */
  lemma CoversCons(h: string, auth: string, scopes: string -> Reply<seq<ScopeEntry>>,
                   rest: FetchResult, hs: seq<string>)
    requires scopes(h).Decoded?
    requires CoversHandles(rest, hs, auth, scopes)
    ensures CoversHandles(Then(FetchResult(EligibleAssets(scopes(h).value), 1, None, [Get(StructuredScopes(h), auth)]), rest),
                          [h] + hs, auth, scopes)
  {
    var r := Then(FetchResult(EligibleAssets(scopes(h).value), 1, None, [Get(StructuredScopes(h), auth)]), rest);
    var hs1 := [h] + hs;
    assert hs1[..r.processed] == [h] + hs[..rest.processed];
    assert ([h] + hs[..rest.processed])[1..] == hs[..rest.processed];
    assert Emitted(hs1[..r.processed], scopes) == AssetsFor(scopes, h) + Emitted(hs[..rest.processed], scopes);
    forall j | 0 <= j < |r.trace| ensures r.trace[j] == Get(StructuredScopes(hs1[j]), auth) {
      if j > 0 { assert r.trace[j] == rest.trace[j - 1]; }
    }
    forall k | 0 <= k < r.processed ensures scopes(hs1[k]).Decoded? {
      if k > 0 { assert hs1[k] == hs[k - 1]; }
    }
    if r.error.Some? {
      assert hs1[r.processed] == hs[rest.processed];
    }
  }

  /** The inner loop over one page's programs meets `CoversHandles` for
      the page's bounty handles. */
  lemma {:induction false} ProgramsMeetSpec(progs: seq<Program>, auth: string,
                                            scopes: string -> Reply<seq<ScopeEntry>>)
    ensures CoversHandles(ProcessPrograms(progs, auth, scopes), BountyHandles(progs), auth, scopes)
    decreases |progs|
  {
    if |progs| > 0 {
      ProgramsMeetSpec(progs[1..], auth, scopes);
      if progs[0].offersBounties {
        var h := progs[0].handle;
        assert BountyHandles(progs) == [h] + BountyHandles(progs[1..]);
        if scopes(h).Decoded? {
          CoversCons(h, auth, scopes, ProcessPrograms(progs[1..], auth, scopes), BountyHandles(progs[1..]));
        }
      }
    }
  }

  /** The inner loop completes exactly when every bounty program's scope
      request succeeds and decodes. */
  lemma ProgramsCompleteIff(progs: seq<Program>, auth: string,
                            scopes: string -> Reply<seq<ScopeEntry>>)
    ensures ProcessPrograms(progs, auth, scopes).error.None? ==>
              forall k :: 0 <= k < |BountyHandles(progs)| ==> scopes(BountyHandles(progs)[k]).Decoded?
    ensures (forall k :: 0 <= k < |BountyHandles(progs)| ==> scopes(BountyHandles(progs)[k]).Decoded?) ==>
              ProcessPrograms(progs, auth, scopes).error.None?
  {
    ProgramsMeetSpec(progs, auth, scopes);
    var r := ProcessPrograms(progs, auth, scopes);
    var hs := BountyHandles(progs);
    if r.error.Some? {
      assert r.processed < |hs| && !scopes(hs[r.processed]).Decoded?;
    }
  }

  /** A covering result stops at the first handle whose scope fails, so
      no covering result counts fewer programs than another. */
  lemma CoversFirstFailure(r1: FetchResult, r2: FetchResult, hs: seq<string>, auth: string,
                           scopes: string -> Reply<seq<ScopeEntry>>)
    requires CoversHandles(r1, hs, auth, scopes) && CoversHandles(r2, hs, auth, scopes)
    ensures r2.processed <= r1.processed
  {
    if r1.processed < r2.processed {
      assert false;
    }
  }

  /** Two results that both cover the handles `hs` are the same result. */
  lemma CoversUnique(r1: FetchResult, r2: FetchResult, hs: seq<string>, auth: string,
                     scopes: string -> Reply<seq<ScopeEntry>>)
    requires CoversHandles(r1, hs, auth, scopes) && CoversHandles(r2, hs, auth, scopes)
    ensures r1 == r2
  {
    CoversFirstFailure(r1, r2, hs, auth, scopes);
    CoversFirstFailure(r2, r1, hs, auth, scopes);
    assert r1.error.None? <==> r2.error.None?;
    assert r1.trace == r2.trace by {
      forall j | 0 <= j < |r1.trace| ensures r1.trace[j] == r2.trace[j] {
      }
    }
    if r1.error.Some? {
      assert r1.error.value.cause == r2.error.value.cause;
    }
  }

  /** `CoversHandles` pins the inner loop down: a result covers a page's
      bounty handles exactly when it is what the loop over the page's
      programs returns. */
  lemma ProgramsExactly(progs: seq<Program>, auth: string,
                        scopes: string -> Reply<seq<ScopeEntry>>, r: FetchResult)
    ensures CoversHandles(r, BountyHandles(progs), auth, scopes) <==> r == ProcessPrograms(progs, auth, scopes)
  {
    ProgramsMeetSpec(progs, auth, scopes);
    if CoversHandles(r, BountyHandles(progs), auth, scopes) {
      CoversUnique(r, ProcessPrograms(progs, auth, scopes), BountyHandles(progs), auth, scopes);
    }
  }

  // ------------------------------------------------- the outer page loop

  /** The number of listing pages a run requested. */
  function PagesRequested(r: FetchResult): nat {
    |PageNumbers(r.trace)|
  }

  /** Pages `i + 1` to `i + n` were requested in order with the given
      token, each was reached uncancelled, and each but the last had
      programs. */
  ghost predicate WalksPages(r: FetchResult, i: nat, auth: string, cancelled: nat -> bool,
                             pages: seq<Reply<seq<Program>>>)
  {
    var n := PagesRequested(r);
    && i + n <= |pages|
    && (forall j :: 0 <= j < |r.trace| ==> r.trace[j].auth == auth)
    && (forall j :: 0 <= j < n ==> PageNumbers(r.trace)[j] == i + 1 + j)
    && (forall p :: i + 1 <= p <= i + n ==> !cancelled(p))
    && (forall j :: i <= j < i + n - 1 ==> Continues(pages[j]))
  }

  /** Scope requests `sh` follow the handles `hs` in order; the count `p`
      and the lines cover a prefix of them, each with a decoded scope. */
  ghost predicate FollowsPrefix(sh: seq<string>, p: nat, lines: seq<string>, hs: seq<string>,
                                scopes: string -> Reply<seq<ScopeEntry>>)
  {
    && p <= |sh| <= |hs|
    && sh == hs[..|sh|]
    && lines == Emitted(hs[..p], scopes)
    && (forall k :: 0 <= k < p ==> scopes(hs[k]).Decoded?)
  }

  /** The scope requests follow the bounty handles of the requested pages
      in order; the count and the lines cover a prefix of them, each with
      a decoded scope. */
  ghost predicate FollowsHandles(r: FetchResult, hs: seq<string>,
                                 scopes: string -> Reply<seq<ScopeEntry>>)
  {
    FollowsPrefix(ScopeHandles(r.trace), r.processed, r.lines, hs, scopes)
  }

  /** The error names why the loop stopped after its last request, the
      request for page `i + n`; `hs` are the bounty handles of the pages
      requested. */
  ghost predicate StopsFor(r: FetchResult, i: nat, n: nat, hs: seq<string>, cancelled: nat -> bool,
                           pages: seq<Reply<seq<Program>>>,
                           scopes: string -> Reply<seq<ScopeEntry>>)
    requires i + n <= |pages|
  {
    var sh := ScopeHandles(r.trace);
    match r.error
    case None =>
      n > 0 && pages[i + n - 1] == Decoded([]) && r.processed == |sh| == |hs|
    case Some(ContextErr) =>
      cancelled(i + n + 1) && (n == 0 || Continues(pages[i + n - 1])) && r.processed == |sh| == |hs|
    case Some(PageRequestFailed(cause)) =>
      n > 0 && pages[i + n - 1] == RequestFailed(cause) && r.processed == |sh| == |hs|
    case Some(DecodeError) =>
      n > 0 && pages[i + n - 1] == Undecodable && r.processed == |sh| == |hs|
    case Some(HandleFailed(h, cause)) =>
      && n > 0 && Continues(pages[i + n - 1])
      && |HandlesOf(pages, i, n - 1)| <= r.processed
      && r.processed < |hs| && |sh| == r.processed + 1 && h == hs[r.processed]
      && FetchEligibleAssets(scopes(h)) == Failure(cause)
    case Some(_) => false
  }

  /** The requests of a run of `n` pages from page `i + 1` come in page
      segments: each page request, then the scope requests for that
      page's bounty handles, up to where the run stopped. */
  ghost predicate Interleaves(r: FetchResult, i: nat, n: nat, auth: string,
                              pages: seq<Reply<seq<Program>>>)
    requires i + n <= |pages|
  {
    IsPrefix(r.trace, Segments(pages, i, n, auth))
  }

  /** What a run of the listing loop from page `i + 1` did, in terms of
      the oracles. */
  ghost predicate Explains(r: FetchResult, i: nat, auth: string, cancelled: nat -> bool,
                           pages: seq<Reply<seq<Program>>>,
                           scopes: string -> Reply<seq<ScopeEntry>>)
  {
    && WalksPages(r, i, auth, cancelled, pages)
    && var n := PagesRequested(r);
       var hs := HandlesOf(pages, i, n);
       && Interleaves(r, i, n, auth, pages)
       && FollowsHandles(r, hs, scopes)
       && StopsFor(r, i, n, hs, cancelled, pages, scopes)
  }

  /** The request for page `i + 1` followed by the inner loop over its
      programs: one page request, then scope requests only. */
  lemma PageThenPrograms(i: nat, auth: string, pages: seq<Reply<seq<Program>>>,
                         scopes: string -> Reply<seq<ScopeEntry>>)
    requires i < |pages| && Continues(pages[i])
    ensures var pr := ProcessPrograms(pages[i].value, auth, scopes);
            var done := Then(FetchResult([], 0, None, [Get(ProgramsPage(i + 1), auth)]), pr);
            && CoversHandles(pr, BountyHandles(pages[i].value), auth, scopes)
            && PageNumbers(done.trace) == [i + 1]
            && ScopeHandles(done.trace) == BountyHandles(pages[i].value)[..|pr.trace|]
            && (forall j :: 0 <= j < |done.trace| ==> done.trace[j].auth == auth)
  {
    var req := Get(ProgramsPage(i + 1), auth);
    var pr := ProcessPrograms(pages[i].value, auth, scopes);
    ProgramsMeetSpec(pages[i].value, auth, scopes);
    ScopeOnlyTrace(pr.trace, BountyHandles(pages[i].value), auth);
    PageNumbersAppend([req], pr.trace);
    ScopeHandlesAppend([req], pr.trace);
    assert PageNumbers([req]) == [i + 1];
    assert ScopeHandles([req]) == [];
    var done := Then(FetchResult([], 0, None, [req]), pr);
    forall j | 0 <= j < |done.trace| ensures done.trace[j].auth == auth {
      if j > 0 { assert done.trace[j] == pr.trace[j - 1]; }
    }
  }

  /** The loop step that goes on to the next page keeps `WalksPages`. */
  lemma StepWalksPages(i: nat, auth: string, cancelled: nat -> bool,
                       pages: seq<Reply<seq<Program>>>,
                       done: FetchResult, rest: FetchResult)
    requires i + 1 < |pages| && Continues(pages[i]) && !cancelled(i + 1)
    requires PageNumbers(done.trace) == [i + 1]
    requires forall j :: 0 <= j < |done.trace| ==> done.trace[j].auth == auth
    requires WalksPages(rest, i + 1, auth, cancelled, pages)
    ensures PagesRequested(Then(done, rest)) == PagesRequested(rest) + 1
    ensures WalksPages(Then(done, rest), i, auth, cancelled, pages)
  {
    var r := Then(done, rest);
    PageNumbersAppend(done.trace, rest.trace);
    var n := PagesRequested(r);
    forall j | 0 <= j < n ensures PageNumbers(r.trace)[j] == i + 1 + j {
      if j > 0 { assert PageNumbers(r.trace)[j] == PageNumbers(rest.trace)[j - 1]; }
    }
    forall j | 0 <= j < |r.trace| ensures r.trace[j].auth == auth {
      if j >= |done.trace| { assert r.trace[j] == rest.trace[j - |done.trace|]; }
    }
  }

  /** The bounty handles of pages `i + 1` to `i + n` are those of page
      `i + 1` followed by those of the rest. */
  lemma HandlesSplit(i: nat, n: nat, pages: seq<Reply<seq<Program>>>, bh: seq<string>)
    requires 0 < n && i + n <= |pages| && Continues(pages[i]) && bh == BountyHandles(pages[i].value)
    ensures HandlesOf(pages, i, n) == bh + HandlesOf(pages, i + 1, n - 1)
  {
  }

  /** A prefix of `hs` stays a prefix after `bh` is put in front of both;
      the result is passed in as `sh'` to keep the proof cheap. */
  lemma PrefixThen(bh: seq<string>, hs: seq<string>, sh: seq<string>, sh': seq<string>)
    requires |sh| <= |hs| && sh == hs[..|sh|] && sh' == bh + sh
    ensures |sh'| <= |bh + hs| && sh' == (bh + hs)[..|sh'|]
  {
  }

  /** The lines of the counted prefix after the completed handles `bh` are
      put in front; the results are passed in as `p'` and `lines'`. */
  lemma EmittedThen(bh: seq<string>, hs: seq<string>, p: nat, p': nat,
                    lines: seq<string>, lines': seq<string>, scopes: string -> Reply<seq<ScopeEntry>>)
    requires p <= |hs| && p' == |bh| + p
    requires lines == Emitted(hs[..p], scopes) && lines' == Emitted(bh, scopes) + lines
    ensures lines' == Emitted((bh + hs)[..p'], scopes)
  {
    assert (bh + hs)[..p'] == bh + hs[..p];
    EmittedAppend(bh, hs[..p], scopes);
  }

  /** Decoded scopes for all of `bh` and a prefix of `hs` are decoded
      scopes for the longer prefix of `bh + hs`. */
  lemma DecodedThen(bh: seq<string>, hs: seq<string>, p: nat, p': nat,
                    scopes: string -> Reply<seq<ScopeEntry>>)
    requires p <= |hs| && p' == |bh| + p
    requires forall k :: 0 <= k < |bh| ==> scopes(bh[k]).Decoded?
    requires forall k :: 0 <= k < p ==> scopes(hs[k]).Decoded?
    ensures forall k :: 0 <= k < p' ==> scopes((bh + hs)[k]).Decoded?
  {
    forall k | 0 <= k < p' ensures scopes((bh + hs)[k]).Decoded? {
      if k >= |bh| { assert (bh + hs)[k] == hs[k - |bh|]; }
    }
  }

  /** Completed handles `bh` in front of a followed prefix. */
  lemma FollowsPrefixCons(bh: seq<string>, sh: seq<string>, p: nat, lines: seq<string>,
                          hs: seq<string>, scopes: string -> Reply<seq<ScopeEntry>>,
                          sh': seq<string>, p': nat, lines': seq<string>)
    requires forall k :: 0 <= k < |bh| ==> scopes(bh[k]).Decoded?
    requires FollowsPrefix(sh, p, lines, hs, scopes)
    requires sh' == bh + sh && p' == |bh| + p && lines' == Emitted(bh, scopes) + lines
    ensures FollowsPrefix(sh', p', lines', bh + hs, scopes)
  {
    PrefixThen(bh, hs, sh, sh');
    EmittedThen(bh, hs, p, p', lines, lines', scopes);
    DecodedThen(bh, hs, p, p', scopes);
  }

  /** The loop step that goes on to the next page keeps `FollowsHandles`:
      page `i + 1` contributed the bounty handles `bh`, all completed. */
  lemma StepFollowsHandles(bh: seq<string>, hs: seq<string>,
                           scopes: string -> Reply<seq<ScopeEntry>>,
                           done: FetchResult, rest: FetchResult)
    requires ScopeHandles(done.trace) == bh
    requires done.processed == |bh|
    requires done.lines == Emitted(bh, scopes)
    requires forall k :: 0 <= k < |bh| ==> scopes(bh[k]).Decoded?
    requires FollowsHandles(rest, hs, scopes)
    ensures FollowsHandles(Then(done, rest), bh + hs, scopes)
  {
    var r := Then(done, rest);
    var sh := ScopeHandles(rest.trace);
    ScopeHandlesAppend(done.trace, rest.trace);
    FollowsPrefixCons(bh, sh, rest.processed, rest.lines, hs, scopes,
                      ScopeHandles(r.trace), r.processed, r.lines);
  }

  /** The loop step that goes on to the next page keeps `StopsFor`. */
  lemma StepStopsFor(i: nat, m: nat, n: nat, bh: seq<string>, hs: seq<string>, cancelled: nat -> bool,
                     pages: seq<Reply<seq<Program>>>,
                     scopes: string -> Reply<seq<ScopeEntry>>,
                     done: FetchResult, rest: FetchResult)
    requires i + m <= |pages| && m == n + 1 && Continues(pages[i])
    requires bh == BountyHandles(pages[i].value)
    requires ScopeHandles(done.trace) == bh
    requires done.processed == |bh|
    requires StopsFor(rest, i + 1, n, hs, cancelled, pages, scopes)
    ensures StopsFor(Then(done, rest), i, m, bh + hs, cancelled, pages, scopes)
  {
    var r := Then(done, rest);
    ScopeHandlesAppend(done.trace, rest.trace);
    assert |ScopeHandles(r.trace)| == |bh| + |ScopeHandles(rest.trace)|;
    if rest.error.Some? && rest.error.value.HandleFailed? {
      HandlesSplit(i, n, pages, bh);
      assert (bh + hs)[r.processed] == hs[rest.processed];
    }
  }

  /** The loop stops on page `i + 1`: cancelled before it, its request or
      decoding failed, it was empty, or one of its scopes failed. */
  lemma StopsOnPage(i: nat, auth: string, cancelled: nat -> bool,
                    pages: seq<Reply<seq<Program>>>,
                    scopes: string -> Reply<seq<ScopeEntry>>)
    requires i < |pages| && EndsListing(pages)
    requires cancelled(i + 1) || !Continues(pages[i]) || ProcessPrograms(pages[i].value, auth, scopes).error.Some?
    ensures Explains(ListFrom(i, auth, cancelled, pages, scopes), i, auth, cancelled, pages, scopes)
  {
    if cancelled(i + 1) {
      StopsCancelled(i, auth, cancelled, pages, scopes);
    } else if !Continues(pages[i]) {
      StopsAtReply(i, auth, cancelled, pages, scopes);
    } else {
      StopsInPrograms(i, auth, cancelled, pages, scopes);
    }
  }

  /** Cancelled before page `i + 1`: nothing requested. */
  lemma StopsCancelled(i: nat, auth: string, cancelled: nat -> bool,
                       pages: seq<Reply<seq<Program>>>,
                       scopes: string -> Reply<seq<ScopeEntry>>)
    requires i < |pages| && EndsListing(pages) && cancelled(i + 1)
    ensures Explains(ListFrom(i, auth, cancelled, pages, scopes), i, auth, cancelled, pages, scopes)
  {
    var r := ListFrom(i, auth, cancelled, pages, scopes);
    assert r == Stop(ContextErr, []);
    ExplainsIntro(r, i, 0, [], auth, cancelled, pages, scopes);
  }

  /** Page `i + 1` was requested and its reply ends the loop: a failed
      request, an undecodable body, or an empty page. */
  lemma StopsAtReply(i: nat, auth: string, cancelled: nat -> bool,
                     pages: seq<Reply<seq<Program>>>,
                     scopes: string -> Reply<seq<ScopeEntry>>)
    requires i < |pages| && EndsListing(pages) && !cancelled(i + 1) && !Continues(pages[i])
    ensures Explains(ListFrom(i, auth, cancelled, pages, scopes), i, auth, cancelled, pages, scopes)
  {
    var r := ListFrom(i, auth, cancelled, pages, scopes);
    var req := Get(ProgramsPage(i + 1), auth);
    assert r.trace == [req] && r.processed == 0 && r.lines == [];
    assert PageNumbers([req]) == [i + 1];
    assert ScopeHandles([req]) == [];
    assert HandlesOf(pages, i, 1) == [];
    assert Segments(pages, i, 1, auth)[0] == req;
    WalksOnePage(r, i, auth, cancelled, pages);
    ExplainsIntro(r, i, 1, [], auth, cancelled, pages, scopes);
  }

  /** The programs of page `i + 1` were processed and one scope failed. */
  lemma StopsInPrograms(i: nat, auth: string, cancelled: nat -> bool,
                        pages: seq<Reply<seq<Program>>>,
                        scopes: string -> Reply<seq<ScopeEntry>>)
    requires i < |pages| && EndsListing(pages) && !cancelled(i + 1) && Continues(pages[i])
    requires ProcessPrograms(pages[i].value, auth, scopes).error.Some?
    ensures Explains(ListFrom(i, auth, cancelled, pages, scopes), i, auth, cancelled, pages, scopes)
  {
    var r := ListFrom(i, auth, cancelled, pages, scopes);
    var pr := ProcessPrograms(pages[i].value, auth, scopes);
    var bh := BountyHandles(pages[i].value);
    PageThenPrograms(i, auth, pages, scopes);
    var req := Get(ProgramsPage(i + 1), auth);
    assert r == Then(FetchResult([], 0, None, [req]), pr);
    WalksOnePage(r, i, auth, cancelled, pages);
    assert HandlesOf(pages, i, 1) == bh;
    CoveredTrace(pr, bh, auth, scopes);
    assert Segments(pages, i, 1, auth) == [req] + ScopeRequests(bh, auth);
    PrefixCons([req], pr.trace, ScopeRequests(bh, auth), Segments(pages, i, 1, auth));
    ExplainsIntro(r, i, 1, bh, auth, cancelled, pages, scopes);
  }

  /** A run that requested only page `i + 1`, uncancelled, walks that page. */
  lemma WalksOnePage(r: FetchResult, i: nat, auth: string, cancelled: nat -> bool,
                     pages: seq<Reply<seq<Program>>>)
    requires i < |pages| && !cancelled(i + 1)
    requires PageNumbers(r.trace) == [i + 1]
    requires forall j :: 0 <= j < |r.trace| ==> r.trace[j].auth == auth
    ensures PagesRequested(r) == 1 && WalksPages(r, i, auth, cancelled, pages)
  {
  }

  /** The listing loop from any page meets `Explains`. */
  lemma {:induction false} ListFromMeetsSpec(i: nat, auth: string, cancelled: nat -> bool,
                                             pages: seq<Reply<seq<Program>>>,
                                             scopes: string -> Reply<seq<ScopeEntry>>)
    requires i < |pages| && EndsListing(pages)
    ensures Explains(ListFrom(i, auth, cancelled, pages, scopes), i, auth, cancelled, pages, scopes)
    decreases |pages| - i
  {
    if cancelled(i + 1) || !Continues(pages[i]) || ProcessPrograms(pages[i].value, auth, scopes).error.Some? {
      StopsOnPage(i, auth, cancelled, pages, scopes);
    } else {
      var pr := ProcessPrograms(pages[i].value, auth, scopes);
      var done := Then(FetchResult([], 0, None, [Get(ProgramsPage(i + 1), auth)]), pr);
      ListFromMeetsSpec(i + 1, auth, cancelled, pages, scopes);
      var rest := ListFrom(i + 1, auth, cancelled, pages, scopes);
      assert ListFrom(i, auth, cancelled, pages, scopes) == Then(done, rest);
      PageCompletes(i, auth, pages, scopes);
      StepExplains(i, auth, cancelled, pages, scopes, BountyHandles(pages[i].value), done, rest);
    }
  }

  /** A page whose bounty programs all complete: one page request, then
      one scope request, one count and the lines of each bounty program. */
  lemma PageCompletes(i: nat, auth: string, pages: seq<Reply<seq<Program>>>,
                      scopes: string -> Reply<seq<ScopeEntry>>)
    requires i < |pages| && Continues(pages[i])
    requires ProcessPrograms(pages[i].value, auth, scopes).error.None?
    ensures var pr := ProcessPrograms(pages[i].value, auth, scopes);
            var done := Then(FetchResult([], 0, None, [Get(ProgramsPage(i + 1), auth)]), pr);
            var bh := BountyHandles(pages[i].value);
            && PageNumbers(done.trace) == [i + 1]
            && (forall j :: 0 <= j < |done.trace| ==> done.trace[j].auth == auth)
            && ScopeHandles(done.trace) == bh
            && done.trace == [Get(ProgramsPage(i + 1), auth)] + ScopeRequests(bh, auth)
            && done.processed == |bh|
            && done.lines == Emitted(bh, scopes)
            && (forall k :: 0 <= k < |bh| ==> scopes(bh[k]).Decoded?)
  {
    var pr := ProcessPrograms(pages[i].value, auth, scopes);
    var bh := BountyHandles(pages[i].value);
    PageThenPrograms(i, auth, pages, scopes);
    CoveredTrace(pr, bh, auth, scopes);
    assert bh[..|pr.trace|] == bh;
    assert bh[..pr.processed] == bh;
  }

  /** A completed page followed by a run that meets `Explains` from the
      next page meets `Explains` from this page. */
  lemma StepExplains(i: nat, auth: string, cancelled: nat -> bool,
                     pages: seq<Reply<seq<Program>>>,
                     scopes: string -> Reply<seq<ScopeEntry>>,
                     bh: seq<string>, done: FetchResult, rest: FetchResult)
    requires i + 1 < |pages| && Continues(pages[i]) && !cancelled(i + 1)
    requires bh == BountyHandles(pages[i].value)
    requires PageNumbers(done.trace) == [i + 1]
    requires forall j :: 0 <= j < |done.trace| ==> done.trace[j].auth == auth
    requires ScopeHandles(done.trace) == bh
    requires done.trace == [Get(ProgramsPage(i + 1), auth)] + ScopeRequests(bh, auth)
    requires done.processed == |bh|
    requires done.lines == Emitted(bh, scopes)
    requires forall k :: 0 <= k < |bh| ==> scopes(bh[k]).Decoded?
    requires Explains(rest, i + 1, auth, cancelled, pages, scopes)
    ensures Explains(Then(done, rest), i, auth, cancelled, pages, scopes)
  {
    StepWalksPages(i, auth, cancelled, pages, done, rest);
    var n := PagesRequested(rest);
    var m := PagesRequested(Then(done, rest));
    var hs := HandlesOf(pages, i + 1, n);
    HandlesSplit(i, m, pages, bh);
    assert m - 1 == n;
    StepFollowsHandles(bh, hs, scopes, done, rest);
    StepStopsFor(i, m, n, bh, hs, cancelled, pages, scopes, done, rest);
    StepInterleaves(i, m, n, auth, pages, bh, done, rest);
    ExplainsIntro(Then(done, rest), i, m, bh + hs, auth, cancelled, pages, scopes);
  }

  /** The loop step that goes on to the next page keeps `Interleaves`. */
  lemma StepInterleaves(i: nat, m: nat, n: nat, auth: string, pages: seq<Reply<seq<Program>>>,
                        bh: seq<string>, done: FetchResult, rest: FetchResult)
    requires i + m <= |pages| && m == n + 1 && Continues(pages[i])
    requires bh == BountyHandles(pages[i].value)
    requires done.trace == [Get(ProgramsPage(i + 1), auth)] + ScopeRequests(bh, auth)
    requires Interleaves(rest, i + 1, n, auth, pages)
    ensures Interleaves(Then(done, rest), i, m, auth, pages)
  {
    assert Segments(pages, i, m, auth) == done.trace + Segments(pages, i + 1, n, auth);
    PrefixCons(done.trace, rest.trace, Segments(pages, i + 1, n, auth), Segments(pages, i, m, auth));
  }

  /** The four parts of `Explains`, for a run of `n` pages with handles `hs`. */
  lemma ExplainsIntro(r: FetchResult, i: nat, n: nat, hs: seq<string>, auth: string,
                      cancelled: nat -> bool, pages: seq<Reply<seq<Program>>>,
                      scopes: string -> Reply<seq<ScopeEntry>>)
    requires WalksPages(r, i, auth, cancelled, pages) && PagesRequested(r) == n
    requires i + n <= |pages| && hs == HandlesOf(pages, i, n)
    requires Interleaves(r, i, n, auth, pages)
    requires FollowsHandles(r, hs, scopes)
    requires StopsFor(r, i, n, hs, cancelled, pages, scopes)
    ensures Explains(r, i, auth, cancelled, pages, scopes)
  {
  }

  // ------------------------------------------- `Explains` pins a run down

  /** A run counts every bounty program of the pages before its last one. */
  lemma CountsEarlierPages(r: FetchResult, i: nat, auth: string, cancelled: nat -> bool,
                           pages: seq<Reply<seq<Program>>>,
                           scopes: string -> Reply<seq<ScopeEntry>>)
    requires Explains(r, i, auth, cancelled, pages, scopes) && PagesRequested(r) > 0
    ensures |HandlesOf(pages, i, PagesRequested(r) - 1)| <= r.processed
  {
    var n := PagesRequested(r);
    HandlesOfAppend(pages, i, n - 1, n);
  }

  /** A run stopped after `n1` pages although page `n1 + 1` could be
      reached uncancelled: only a scope failure stops it there. */
  lemma StopsShortOnlyByScope(r: FetchResult, i: nat, n1: nat, n2: nat, hs: seq<string>,
                              cancelled: nat -> bool, pages: seq<Reply<seq<Program>>>,
                              scopes: string -> Reply<seq<ScopeEntry>>)
    requires n1 < n2 && i + n2 <= |pages|
    requires forall p :: i + 1 <= p <= i + n2 ==> !cancelled(p)
    requires forall j :: i <= j < i + n2 - 1 ==> Continues(pages[j])
    requires StopsFor(r, i, n1, hs, cancelled, pages, scopes)
    ensures r.error.Some? && r.error.value.HandleFailed?
  {
    assert !cancelled(i + n1 + 1);
    assert n1 > 0 ==> Continues(pages[i + n1 - 1]);
  }

  /** Scopes decoded for every bounty program before the last of `n2`
      pages are decoded for every bounty program of the first `n1 < n2`. */
  lemma DecodedEarlierPages(pages: seq<Reply<seq<Program>>>, i: nat, n1: nat, n2: nat, q: nat,
                            scopes: string -> Reply<seq<ScopeEntry>>)
    requires n1 < n2 && i + n2 <= |pages|
    requires |HandlesOf(pages, i, n2 - 1)| <= q <= |HandlesOf(pages, i, n2)|
    requires forall k :: 0 <= k < q ==> scopes(HandlesOf(pages, i, n2)[k]).Decoded?
    ensures forall k :: 0 <= k < |HandlesOf(pages, i, n1)| ==> scopes(HandlesOf(pages, i, n1)[k]).Decoded?
  {
    var hs1 := HandlesOf(pages, i, n1);
    var hs2 := HandlesOf(pages, i, n2);
    HandlesOfAppend(pages, i, n1, n2 - 1);
    HandlesOfAppend(pages, i, n1, n2);
    forall k | 0 <= k < |hs1| ensures scopes(hs1[k]).Decoded? {
      assert hs1[k] == hs2[k];
    }
  }

  /** No run that satisfies `Explains` stops on an earlier page than
      another one. */
  lemma NoEarlierPage(r1: FetchResult, r2: FetchResult, i: nat, auth: string, cancelled: nat -> bool,
                      pages: seq<Reply<seq<Program>>>,
                      scopes: string -> Reply<seq<ScopeEntry>>)
    requires Explains(r1, i, auth, cancelled, pages, scopes)
    requires Explains(r2, i, auth, cancelled, pages, scopes)
    ensures PagesRequested(r2) <= PagesRequested(r1)
  {
    var n1 := PagesRequested(r1);
    var n2 := PagesRequested(r2);
    if n1 < n2 {
      var hs1 := HandlesOf(pages, i, n1);
      StopsShortOnlyByScope(r1, i, n1, n2, hs1, cancelled, pages, scopes);
      CountsEarlierPages(r2, i, auth, cancelled, pages, scopes);
      DecodedEarlierPages(pages, i, n1, n2, r2.processed, scopes);
      assert false;
    }
  }

  /** With the same pages requested, no run that satisfies `Explains`
      stops at an earlier program than another one. */
  lemma NoEarlierProgram(r1: FetchResult, r2: FetchResult, i: nat, auth: string, cancelled: nat -> bool,
                         pages: seq<Reply<seq<Program>>>,
                         scopes: string -> Reply<seq<ScopeEntry>>)
    requires Explains(r1, i, auth, cancelled, pages, scopes)
    requires Explains(r2, i, auth, cancelled, pages, scopes)
    requires PagesRequested(r1) == PagesRequested(r2)
    ensures r2.processed <= r1.processed
  {
    if r1.processed < r2.processed {
      assert false;
    }
  }

  /** With the same pages requested and the same programs counted, runs
      that satisfy `Explains` stop for the same reason. */
  lemma SameStop(r1: FetchResult, r2: FetchResult, i: nat, auth: string, cancelled: nat -> bool,
                 pages: seq<Reply<seq<Program>>>,
                 scopes: string -> Reply<seq<ScopeEntry>>)
    requires Explains(r1, i, auth, cancelled, pages, scopes)
    requires Explains(r2, i, auth, cancelled, pages, scopes)
    requires PagesRequested(r1) == PagesRequested(r2) && r1.processed == r2.processed
    ensures r1.error == r2.error
    ensures |ScopeHandles(r1.trace)| == |ScopeHandles(r2.trace)|
  {
  }

  /** `Explains` determines the run: two results that satisfy it for the
      same oracles are equal. */
  lemma ExplainsUnique(r1: FetchResult, r2: FetchResult, i: nat, auth: string, cancelled: nat -> bool,
                       pages: seq<Reply<seq<Program>>>,
                       scopes: string -> Reply<seq<ScopeEntry>>)
    requires Explains(r1, i, auth, cancelled, pages, scopes)
    requires Explains(r2, i, auth, cancelled, pages, scopes)
    ensures r1 == r2
  {
    NoEarlierPage(r1, r2, i, auth, cancelled, pages, scopes);
    NoEarlierPage(r2, r1, i, auth, cancelled, pages, scopes);
    NoEarlierProgram(r1, r2, i, auth, cancelled, pages, scopes);
    NoEarlierProgram(r2, r1, i, auth, cancelled, pages, scopes);
    SameStop(r1, r2, i, auth, cancelled, pages, scopes);
    TraceSplits(r1.trace);
    TraceSplits(r2.trace);
    var n := PagesRequested(r1);
    var seg := Segments(pages, i, n, auth);
    assert r1.trace == r2.trace by {
      forall j | 0 <= j < |r1.trace| ensures r1.trace[j] == r2.trace[j] {
        assert r1.trace[j] == seg[j] == r2.trace[j];
      }
    }
  }

  /** `Explains` is a complete description of the listing loop: a result
      satisfies it exactly when it is the loop's result. */
  lemma ListFromExactly(i: nat, auth: string, cancelled: nat -> bool,
                        pages: seq<Reply<seq<Program>>>,
                        scopes: string -> Reply<seq<ScopeEntry>>, r: FetchResult)
    requires i < |pages| && EndsListing(pages)
    ensures Explains(r, i, auth, cancelled, pages, scopes) <==> r == ListFrom(i, auth, cancelled, pages, scopes)
  {
    ListFromMeetsSpec(i, auth, cancelled, pages, scopes);
    if Explains(r, i, auth, cancelled, pages, scopes) {
      ExplainsUnique(r, ListFrom(i, auth, cancelled, pages, scopes), i, auth, cancelled, pages, scopes);
    }
  }

  // ------------------------------------------------------------ the fetch

  /** With well-formed credentials, `Fetch` is the listing loop from page 1
      under the encoding of the original credential string. */
  lemma FetchMeetsSpec(apiKey: string, encode: string -> string, cancelled: nat -> bool,
                       pages: seq<Reply<seq<Program>>>,
                       scopes: string -> Reply<seq<ScopeEntry>>)
    requires EndsListing(pages) && ':' in apiKey
    ensures Explains(Fetch(apiKey, encode, cancelled, pages, scopes), 0, encode(apiKey), cancelled, pages, scopes)
  {
    ListFromMeetsSpec(0, encode(apiKey), cancelled, pages, scopes);
  }

  /** With well-formed credentials, a result satisfies `Explains` from
      page 1 under the encoded token exactly when `Fetch` returns it. */
  lemma FetchExactly(apiKey: string, encode: string -> string, cancelled: nat -> bool,
                     pages: seq<Reply<seq<Program>>>,
                     scopes: string -> Reply<seq<ScopeEntry>>, r: FetchResult)
    requires EndsListing(pages) && ':' in apiKey
    ensures Explains(r, 0, encode(apiKey), cancelled, pages, scopes) <==>
            r == Fetch(apiKey, encode, cancelled, pages, scopes)
  {
    ListFromExactly(0, encode(apiKey), cancelled, pages, scopes, r);
  }

  /** Pages are requested as 1, 2, 3, ... and every request carries the
      Basic-auth token of the credentials. */
  lemma FetchPagesInOrder(apiKey: string, encode: string -> string, cancelled: nat -> bool,
                          pages: seq<Reply<seq<Program>>>,
                          scopes: string -> Reply<seq<ScopeEntry>>)
    requires EndsListing(pages)
    ensures var r := Fetch(apiKey, encode, cancelled, pages, scopes);
            && (forall j :: 0 <= j < |PageNumbers(r.trace)| ==> PageNumbers(r.trace)[j] == j + 1)
            && (forall j :: 0 <= j < |r.trace| ==> r.trace[j].auth == encode(apiKey))
  {
    if ':' in apiKey {
      FetchMeetsSpec(apiKey, encode, cancelled, pages, scopes);
    }
  }

  /** No page after the first empty one is ever requested. */
  lemma FetchStopsAtEmptyPage(apiKey: string, encode: string -> string, cancelled: nat -> bool,
                              pages: seq<Reply<seq<Program>>>,
                              scopes: string -> Reply<seq<ScopeEntry>>, m: nat)
    requires EndsListing(pages) && m < |pages| && pages[m] == Decoded([])
    ensures forall q :: q in PageNumbers(Fetch(apiKey, encode, cancelled, pages, scopes).trace) ==> q <= m + 1
  {
    if ':' in apiKey {
      FetchMeetsSpec(apiKey, encode, cancelled, pages, scopes);
      var r := Fetch(apiKey, encode, cancelled, pages, scopes);
      var n := PagesRequested(r);
      assert n <= m + 1 || Continues(pages[m]);
    }
  }

  lemma WalkAvoidsCancelled(r: FetchResult, auth: string, cancelled: nat -> bool,
                            pages: seq<Reply<seq<Program>>>, p: nat)
    requires WalksPages(r, 0, auth, cancelled, pages) && p >= 1 && cancelled(p)
    ensures forall q :: q in PageNumbers(r.trace) ==> q < p
  {
    var pn := PageNumbers(r.trace);
    forall q | q in pn ensures q < p {
      var j :| 0 <= j < |pn| && pn[j] == q;
      assert p <= |pn| ==> !cancelled(p);
    }
  }

  /** A cancellation seen at the check before page `p` means no page from
      `p` on is requested. */
  lemma FetchStopsWhenCancelled(apiKey: string, encode: string -> string, cancelled: nat -> bool,
                                pages: seq<Reply<seq<Program>>>,
                                scopes: string -> Reply<seq<ScopeEntry>>, p: nat)
    requires EndsListing(pages) && p >= 1 && cancelled(p)
    ensures forall q :: q in PageNumbers(Fetch(apiKey, encode, cancelled, pages, scopes).trace) ==> q < p
  {
    var r := Fetch(apiKey, encode, cancelled, pages, scopes);
    var pn := PageNumbers(r.trace);
    if ':' in apiKey {
      FetchMeetsSpec(apiKey, encode, cancelled, pages, scopes);
      WalkAvoidsCancelled(r, encode(apiKey), cancelled, pages, p);
    } else {
      assert r.trace == [];
    }
  }

  /** The context error is returned only when the check after the last
      requested page saw the cancellation, and then with every bounty
      program of the requested pages counted. */
  lemma FetchCancelledResult(apiKey: string, encode: string -> string, cancelled: nat -> bool,
                             pages: seq<Reply<seq<Program>>>,
                             scopes: string -> Reply<seq<ScopeEntry>>)
    requires EndsListing(pages)
    ensures var r := Fetch(apiKey, encode, cancelled, pages, scopes);
            var n := PagesRequested(r);
            r.error == Some(ContextErr) ==>
              && ':' in apiKey
              && n <= |pages|
              && cancelled(n + 1)
              && r.processed == |HandlesOf(pages, 0, n)|
  {
    if ':' in apiKey {
      FetchMeetsSpec(apiKey, encode, cancelled, pages, scopes);
    }
  }

  /** Every bounty handle of pages `i + 1` to `i + n` comes from a bounty
      program listed on one of them. */
  lemma {:induction false} HandlesOfFrom(pages: seq<Reply<seq<Program>>>, i: nat, n: nat, h: string)
    requires i + n <= |pages| && h in HandlesOf(pages, i, n)
    ensures exists j :: i <= j < i + n && pages[j].Decoded? &&
              exists p :: p in pages[j].value && p.offersBounties && p.handle == h
    decreases n
  {
    if h in PageHandles(pages[i]) {
      BountyHandlesMembers(pages[i].value);
    } else {
      HandlesOfFrom(pages, i + 1, n - 1, h);
    }
  }

  /** Scope requests are made only for programs that offer bounties and
      were listed on a requested page. */
  lemma FetchOnlyBountyScopes(apiKey: string, encode: string -> string, cancelled: nat -> bool,
                              pages: seq<Reply<seq<Program>>>,
                              scopes: string -> Reply<seq<ScopeEntry>>, h: string)
    requires EndsListing(pages)
    requires h in ScopeHandles(Fetch(apiKey, encode, cancelled, pages, scopes).trace)
    ensures PagesRequested(Fetch(apiKey, encode, cancelled, pages, scopes)) <= |pages|
    ensures exists j :: 0 <= j < PagesRequested(Fetch(apiKey, encode, cancelled, pages, scopes)) &&
              pages[j].Decoded? &&
              exists p :: p in pages[j].value && p.offersBounties && p.handle == h
  {
    var r := Fetch(apiKey, encode, cancelled, pages, scopes);
    if ':' !in apiKey {
      assert false;
    }
    FetchMeetsSpec(apiKey, encode, cancelled, pages, scopes);
    var n := PagesRequested(r);
    var hs := HandlesOf(pages, 0, n);
    var sh := ScopeHandles(r.trace);
    assert sh == hs[..|sh|];
    assert h in hs;
    HandlesOfFrom(pages, 0, n, h);
  }

  /** Re-associates `h + (b + t)` as `(h + b) + t`, with every sequence
      named by the caller so that no concatenation has to be unfolded. */
  lemma ConcatStep(x: seq<string>, h: seq<string>, a: seq<string>, b: seq<string>, t: seq<string>,
                   y: seq<string>)
    requires x == h + a && a == b + t && y == h + b
    ensures x == y + t
  {
  }

  lemma {:induction false} HandlesOfAppend(pages: seq<Reply<seq<Program>>>, i: nat, n: nat, m: nat)
    requires n <= m && i + m <= |pages|
    ensures HandlesOf(pages, i, m) == HandlesOf(pages, i, n) + HandlesOf(pages, i + n, m - n)
    decreases n
  {
    if n > 0 {
      HandlesOfAppend(pages, i + 1, n - 1, m - 1);
      var tail := HandlesOf(pages, i + n, m - n);
      assert HandlesOf(pages, i + 1 + (n - 1), (m - 1) - (n - 1)) == tail;
      ConcatStep(HandlesOf(pages, i, m), PageHandles(pages[i]), HandlesOf(pages, i + 1, m - 1),
                 HandlesOf(pages, i + 1, n - 1), tail, HandlesOf(pages, i, n));
    }
  }

  /** A run whose pages up to the first empty one all arrive, are never
      cancelled, and whose bounty scopes all decode, ends without error,
      requests exactly those pages, counts every bounty program on them,
      and writes exactly their eligible assets, in page order and then
      scope order. */
  lemma {:induction false} FetchCompleteRun(apiKey: string, encode: string -> string, cancelled: nat -> bool,
                         pages: seq<Reply<seq<Program>>>,
                         scopes: string -> Reply<seq<ScopeEntry>>, m: nat)
    requires EndsListing(pages) && ':' in apiKey
    requires m < |pages| && pages[m] == Decoded([])
    requires forall j :: 0 <= j < m ==> Continues(pages[j])
    requires forall p :: 1 <= p <= m + 1 ==> !cancelled(p)
    requires forall h :: h in HandlesOf(pages, 0, m + 1) ==> scopes(h).Decoded?
    ensures var r := Fetch(apiKey, encode, cancelled, pages, scopes);
            var hs := HandlesOf(pages, 0, m + 1);
            && r.error == None
            && PagesRequested(r) == m + 1
            && r.processed == |hs|
            && r.lines == Emitted(hs, scopes)
  {
    FetchMeetsSpec(apiKey, encode, cancelled, pages, scopes);
    var r := Fetch(apiKey, encode, cancelled, pages, scopes);
    var n := PagesRequested(r);
    assert n <= m + 1 || Continues(pages[m]);
    var hs := HandlesOf(pages, 0, n);
    PrefixHandlesDecoded(pages, n, m + 1, scopes);
    CompleteRunStops(r, n, hs, cancelled, pages, scopes, m);
    assert hs[..r.processed] == hs;
  }

  /** The bounty handles of a prefix of the pages are among those of a
      longer prefix. */
  lemma PrefixHandlesDecoded(pages: seq<Reply<seq<Program>>>, n: nat, m: nat,
                             scopes: string -> Reply<seq<ScopeEntry>>)
    requires n <= m <= |pages|
    requires forall h :: h in HandlesOf(pages, 0, m) ==> scopes(h).Decoded?
    ensures forall k :: 0 <= k < |HandlesOf(pages, 0, n)| ==> scopes(HandlesOf(pages, 0, n)[k]).Decoded?
  {
    var hs := HandlesOf(pages, 0, n);
    var all := HandlesOf(pages, 0, m);
    HandlesOfAppend(pages, 0, n, m);
    forall k | 0 <= k < |hs| ensures scopes(hs[k]).Decoded? {
      assert hs[k] == all[k];
    }
  }

  /** The stop reason of a run whose pages up to `m` continue, whose checks
      up to page `m + 1` pass, and whose bounty scopes all decode: it ran
      out of pages at the empty page `m + 1`. */
  lemma CompleteRunStops(r: FetchResult, n: nat, hs: seq<string>, cancelled: nat -> bool,
                         pages: seq<Reply<seq<Program>>>,
                         scopes: string -> Reply<seq<ScopeEntry>>, m: nat)
    requires m < |pages| && pages[m] == Decoded([]) && n <= m + 1
    requires forall j :: 0 <= j < m ==> Continues(pages[j])
    requires forall p :: 1 <= p <= m + 1 ==> !cancelled(p)
    requires forall k :: 0 <= k < |hs| ==> scopes(hs[k]).Decoded?
    requires StopsFor(r, 0, n, hs, cancelled, pages, scopes)
    ensures r.error == None && n == m + 1 && r.processed == |hs|
  {
    assert n == 0 || n - 1 == m || Continues(pages[n - 1]);
  }

  /** One listing page with one bounty program "acme" whose scope has one
      eligible asset: exactly that asset is written and one program counted. */
  lemma FetchSingleProgram(encode: string -> string)
    ensures var scopes := (h: string) =>
              if h == "acme" then Decoded([ScopeEntry(true, "api.acme.com")]) else Undecodable;
            var r := Fetch("user:key", encode, (p: nat) => false,
                           [Decoded([Program("acme", true)]), Decoded([])], scopes);
            && r.error == None
            && r.processed == 1
            && r.lines == ["api.acme.com"]
            && PageNumbers(r.trace) == [1, 2]
            && ScopeHandles(r.trace) == ["acme"]
  {
    var scopes := (h: string) =>
      if h == "acme" then Decoded([ScopeEntry(true, "api.acme.com")]) else Undecodable;
    var cancelled := (p: nat) => false;
    var pages := [Decoded([Program("acme", true)]), Decoded([])];
    assert ':' in "user:key" by { assert "user:key"[4] == ':'; }
    ScenarioEntries([ScopeEntry(true, "api.acme.com")], "api.acme.com");
    ScenarioRun("user:key", encode, cancelled, pages, scopes, "acme", ["api.acme.com"]);
  }

  /** A program without bounties causes no scope request, and an entry not
      eligible for bounty writes no line. */
  lemma FetchFiltersIneligible(encode: string -> string)
    ensures var scopes := (h: string) =>
              Decoded([ScopeEntry(false, "a.com"), ScopeEntry(true, "b.com")]);
            var r := Fetch("user:key", encode, (p: nat) => false,
                           [Decoded([Program("y", false), Program("x", true)]), Decoded([])], scopes);
            && r.error == None
            && ScopeHandles(r.trace) == ["x"]
            && r.lines == ["b.com"]
            && r.processed == 1
  {
    var scopes := (h: string) =>
      Decoded([ScopeEntry(false, "a.com"), ScopeEntry(true, "b.com")]);
    var cancelled := (p: nat) => false;
    var pages := [Decoded([Program("y", false), Program("x", true)]), Decoded([])];
    assert ':' in "user:key" by { assert "user:key"[4] == ':'; }
    ScenarioEntries([ScopeEntry(false, "a.com"), ScopeEntry(true, "b.com")], "b.com");
    ScenarioRun("user:key", encode, cancelled, pages, scopes, "x", ["b.com"]);
  }

  lemma ScenarioEntries(entries: seq<ScopeEntry>, a: string)
    requires (|entries| == 1 && entries[0] == ScopeEntry(true, a))
          || (|entries| == 2 && !entries[0].eligibleForBounty && entries[1] == ScopeEntry(true, a))
    ensures EligibleAssets(entries) == [a]
  {
    if |entries| == 2 {
      assert entries[1..][1..] == [];
    } else {
      assert entries[1..] == [];
    }
  }

  /** Shared proof of the two-page scenarios: the first page has exactly
      one bounty program `h`, the second is empty. */
  lemma ScenarioRun(apiKey: string, encode: string -> string, cancelled: nat -> bool,
                    pages: seq<Reply<seq<Program>>>,
                    scopes: string -> Reply<seq<ScopeEntry>>, h: string, assets: seq<string>)
    requires ':' in apiKey
    requires |pages| == 2 && pages[1] == Decoded([]) && pages[0].Decoded?
    requires BountyHandles(pages[0].value) == [h]
    requires forall p :: !cancelled(p)
    requires scopes(h).Decoded? && EligibleAssets(scopes(h).value) == assets
    ensures var r := Fetch(apiKey, encode, cancelled, pages, scopes);
            && r.error == None
            && r.processed == 1
            && r.lines == assets
            && PageNumbers(r.trace) == [1, 2]
            && ScopeHandles(r.trace) == [h]
  {
    var r := Fetch(apiKey, encode, cancelled, pages, scopes);
    TwoPageHandles(pages, h);
    FetchCompleteRun(apiKey, encode, cancelled, pages, scopes, 1);
    assert [h][1..] == [];
    assert Emitted([h], scopes) == assets;
    FetchPagesInOrder(apiKey, encode, cancelled, pages, scopes);
    var pn := PageNumbers(r.trace);
    assert pn[0] == 1 && pn[1] == 2;
    FetchMeetsSpec(apiKey, encode, cancelled, pages, scopes);
    assert FollowsHandles(r, HandlesOf(pages, 0, 2), scopes);
  }

  lemma TwoPageHandles(pages: seq<Reply<seq<Program>>>, h: string)
    requires |pages| == 2 && pages[1] == Decoded([]) && pages[0].Decoded?
    requires BountyHandles(pages[0].value) == [h]
    ensures HandlesOf(pages, 0, 2) == [h]
  {
    assert HandlesOf(pages, 1, 1) == [];
  }
}
