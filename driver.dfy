/** The daily run (scripts/check_arxiv.py, `search_arxiv`, lines 30-73;
    `check_if_issue_exists`, lines 75-82; the entry point, lines 84-88). */
module Driver {
  import opened Text
  import opened Dates
  import opened Query
  import opened Formatter
  import opened Poster

  /** `check_if_issue_exists` is modelled by the set of paper titles the
      tracker already has an issue for: the check reports a title exactly
      when it is in the set.  The script's stub never reports one, which is
      the empty set. */
  const StubFiled: set<string> := {}

  /** The script's `check_if_issue_exists`: false for every title, which is
      asking whether the title is in `StubFiled`. */
  function CheckIfIssueExists(title: string): (reported: bool)
    ensures !reported
    ensures reported <==> title in StubFiled
  {
    false
  }

  /** Those of the first `n` results that the loop posts, in result order:
      the ones whose title the duplicate check does not report. */
  function NewPapers(results: seq<Paper>, n: nat, filed: set<string>): (r: seq<Paper>)
    requires n <= |results|
    ensures |r| <= n
  {
    if n == 0 then []
    else NewPapers(results, n - 1, filed) + (if results[n - 1].title in filed then [] else [results[n - 1]])
  }

  /** The request posted for one paper. */
  function RequestFor(p: Paper): (r: IssueRequest)
    ensures StripTitlePrefix(r.title) == Some(p.title)
    ensures r.body == Unlines(BodyLines(p))
    ensures r.labels == ["new-paper"]
  {
    IssueRequest(IssueTitle(p), Unlines(BodyLines(p)), [NewPaperLabel])
  }

  /** One request per paper, in order. */
  function RequestsFor(ps: seq<Paper>): (r: seq<IssueRequest>)
    ensures |r| == |ps|
  {
    if ps == [] then [] else RequestsFor(ps[..|ps| - 1]) + [RequestFor(ps[|ps| - 1])]
  }

  lemma RequestsForSnoc(ps: seq<Paper>, p: Paper)
    ensures RequestsFor(ps + [p]) == RequestsFor(ps) + [RequestFor(p)]
  {
    assert (ps + [p])[..|ps|] == ps;
  }

  /** The log of one iteration, given the status the tracker answers. */
  function Step(p: Paper, filed: set<string>, status: int): (r: seq<Event>)
    ensures |r| == 1 <==> p.title in filed
    ensures |r| == 2 <==> p.title !in filed
    ensures r[0].AlreadyExists? <==> p.title in filed
    ensures r[0].FoundNew? <==> p.title !in filed
    ensures (r[0].AlreadyExists? || r[0].FoundNew?) && r[0].paperTitle == p.title
    ensures |r| == 2 ==> (r[1].Created? <==> status == Created201) && (r[1].Failed? <==> status != Created201)
  {
    if p.title in filed then [AlreadyExists(p.title)] else [FoundNew(p.title), Outcome(IssueTitle(p), status)]
  }

  /** The log of the loop over the first `n` results, when the tracker
      answers the k-th post of the run with `respond(k)`.  The loop never
      reports "no new papers" or a missing token itself. */
  function Events(results: seq<Paper>, n: nat, filed: set<string>, respond: nat -> int): (r: seq<Event>)
    requires n <= |results|
    ensures NoNewPapers !in r && MissingToken !in r
  {
    if n == 0 then []
    else Events(results, n - 1, filed, respond)
         + Step(results[n - 1], filed, respond(|NewPapers(results, n - 1, filed)|))
  }

  /** A result the duplicate check reports adds nothing to the posted
      requests ... */
  lemma SkippedPosts(results: seq<Paper>, i: nat, filed: set<string>, posted: seq<IssueRequest>)
    requires i < |results| && results[i].title in filed
    requires posted == RequestsFor(NewPapers(results, i, filed))
    ensures posted == RequestsFor(NewPapers(results, i + 1, filed))
  {
    var before := NewPapers(results, i, filed);
    assert NewPapers(results, i + 1, filed) == before + [];
    assert before + [] == before;
  }

  /** ... and only its notice to the log. */
  lemma SkippedLog(results: seq<Paper>, i: nat, filed: set<string>, respond: nat -> int, log: seq<Event>)
    requires i < |results| && results[i].title in filed
    requires log == Events(results, i, filed, respond)
    ensures log + [AlreadyExists(results[i].title)] == Events(results, i + 1, filed, respond)
  {
  }

  /** A new result adds its request to the posted ones ... */
  lemma FiledPosts(results: seq<Paper>, i: nat, filed: set<string>, posted: seq<IssueRequest>, request: IssueRequest)
    requires i < |results| && results[i].title !in filed
    requires posted == RequestsFor(NewPapers(results, i, filed)) && request == RequestFor(results[i])
    ensures posted + [request] == RequestsFor(NewPapers(results, i + 1, filed))
  {
    RequestsForSnoc(NewPapers(results, i, filed), results[i]);
  }

  /** ... and its notice and the tracker's answer to the log. */
  lemma FiledLog(results: seq<Paper>, i: nat, filed: set<string>, respond: nat -> int, log: seq<Event>, outcome: Event)
    requires i < |results| && results[i].title !in filed
    requires log == Events(results, i, filed, respond)
    requires outcome == Outcome(IssueTitle(results[i]), respond(|NewPapers(results, i, filed)|))
    ensures log + [FoundNew(results[i].title)] + [outcome] == Events(results, i + 1, filed, respond)
  {
  }

  /** The loop of `search_arxiv` (lines 48-70): for every result, skip it
      if the duplicate check reports its title, otherwise count it, format
      it and post it; a failed post is logged and the loop goes on.
      `posted` lists the requests the tracker receives, in order;
      `respond(k)` is its answer to the k-th. */
  method FileResults(results: seq<Paper>, filed: set<string>, respond: nat -> int)
    returns (found: nat, posted: seq<IssueRequest>, log: seq<Event>)
    ensures posted == RequestsFor(NewPapers(results, |results|, filed))
    ensures found == |posted|
    ensures log == Events(results, |results|, filed, respond)
  {
    found := 0;
    posted := [];
    log := [];
    for i := 0 to |results|
      invariant posted == RequestsFor(NewPapers(results, i, filed))
      invariant found == |posted|
      invariant log == Events(results, i, filed, respond)
    {
      var result := results[i];
      ghost var before := log;
      if result.title in filed {
        log := log + [AlreadyExists(result.title)];
        SkippedPosts(results, i, filed, posted);
        SkippedLog(results, i, filed, respond, before);
        continue;
      }
      found := found + 1;
      log := log + [FoundNew(result.title)];
      var issueTitle := IssueTitle(result);
      var issueBody := FormatBody(result);
      var request, outcome := CreateIssue(issueTitle, issueBody, respond(|posted|));
      FiledPosts(results, i, filed, posted, request);
      FiledLog(results, i, filed, respond, before, outcome);
      posted := posted + [request];
      log := log + [outcome];
    }
  }

  /** `search_arxiv` after the search: the loop, then "no new papers" is
      reported exactly when nothing was posted. */
  method SearchArxiv(results: seq<Paper>, filed: set<string>, respond: nat -> int)
    returns (found: nat, posted: seq<IssueRequest>, log: seq<Event>)
    ensures posted == RequestsFor(NewPapers(results, |results|, filed))
    ensures found == |posted|
    ensures log == Events(results, |results|, filed, respond) + (if found == 0 then [NoNewPapers] else [])
    ensures NoNewPapers in log <==> found == 0
  {
    found, posted, log := FileResults(results, filed, respond);
    if found == 0 {
      log := log + [NoNewPapers];
    }
  }

  /** The papers the search service hands back for a request: at most
      `maxResults` of those it holds, in its (newest first) order. */
  function SearchResults(available: seq<Paper>, request: SearchRequest): (r: seq<Paper>)
    ensures |r| == if |available| <= request.maxResults then |available| else request.maxResults
    ensures r == available[..|r|]
  {
    if |available| <= request.maxResults then available else available[..request.maxResults]
  }

  /** The entry point: without a (truthy) token nothing is searched and
      nothing is posted; with one, yesterday's search runs and its results go
      through `SearchArxiv`.  `available` is what the search service holds
      for the query, newest first. */
  method Run(token: Option<string>, yesterday: Date, available: seq<Paper>, filed: set<string>,
             respond: nat -> int)
    returns (search: Option<SearchRequest>, found: nat, posted: seq<IssueRequest>, log: seq<Event>)
    requires ValidDate(yesterday)
    ensures !Truthy(token) <==> search == None
    ensures !Truthy(token) ==> found == 0 && posted == [] && log == [MissingToken]
    ensures Truthy(token) ==>
      search == Some(BuildSearch(yesterday))
      && var results := SearchResults(available, search.value);
         found == |NewPapers(results, |results|, filed)|
         && posted == RequestsFor(NewPapers(results, |results|, filed))
         && log == Events(results, |results|, filed, respond) + (if found == 0 then [NoNewPapers] else [])
  {
    if !Truthy(token) {
      search, found, posted, log := None, 0, [], [MissingToken];
      return;
    }
    var request := BuildSearch(yesterday);
    search := Some(request);
    found, posted, log := SearchArxiv(SearchResults(available, request), filed, respond);
  }

  // Properties of the loop's specification.

  /** Looking at more results does not change what the earlier ones gave. */
  lemma {:induction false} NewPapersPrefix(results: seq<Paper>, more: seq<Paper>, n: nat, filed: set<string>)
    requires n <= |results|
    ensures NewPapers(results + more, n, filed) == NewPapers(results, n, filed)
  {
    if n > 0 {
      NewPapersPrefix(results, more, n - 1, filed);
      assert (results + more)[n - 1] == results[n - 1];
    }
  }

  /** Filtering distributes over concatenation, so the posted papers keep
      the order in which the results came. */
  lemma {:induction false} NewPapersAppend(a: seq<Paper>, b: seq<Paper>, n: nat, filed: set<string>)
    requires n <= |b|
    ensures NewPapers(a + b, |a| + n, filed) == NewPapers(a, |a|, filed) + NewPapers(b, n, filed)
  {
    if n == 0 {
      NewPapersPrefix(a, b, |a|, filed);
    } else {
      NewPapersAppend(a, b, n - 1, filed);
      assert (a + b)[|a| + n - 1] == b[n - 1];
    }
  }

  /** A paper is posted if and only if it is among the results and the
      duplicate check does not report its title. */
  lemma {:induction false} NewPapersMembership(results: seq<Paper>, n: nat, filed: set<string>, p: Paper)
    requires n <= |results|
    ensures p in NewPapers(results, n, filed) <==> p in results[..n] && p.title !in filed
  {
    if n > 0 {
      NewPapersMembership(results, n - 1, filed, p);
      assert results[..n] == results[..n - 1] + [results[n - 1]];
    }
  }

  /** With the stub, every result is posted: the count is the number of
      results and there is one request per result. */
  lemma {:induction false} StubFilesEveryResult(results: seq<Paper>, n: nat)
    requires n <= |results|
    ensures NewPapers(results, n, StubFiled) == results[..n]
  {
    if n > 0 {
      StubFilesEveryResult(results, n - 1);
      assert results[..n] == results[..n - 1] + [results[n - 1]];
    }
  }

  /** The k-th request is the k-th paper's title and body with the single
      label "new-paper". */
  lemma {:induction false} RequestsInOrder(ps: seq<Paper>, k: nat)
    requires k < |ps|
    ensures RequestsFor(ps)[k] == IssueRequest(IssueTitle(ps[k]), Unlines(BodyLines(ps[k])), ["new-paper"])
  {
    if k < |ps| - 1 {
      RequestsInOrder(ps[..|ps| - 1], k);
    }
  }

  /** The answers reported in a log, in order. */
  function Outcomes(log: seq<Event>): seq<Event>
  {
    if log == [] then []
    else
      var e := log[|log| - 1];
      Outcomes(log[..|log| - 1]) + (if e.Created? || e.Failed? then [e] else [])
  }

  lemma {:induction false} OutcomesAppend(a: seq<Event>, b: seq<Event>)
    ensures Outcomes(a + b) == Outcomes(a) + Outcomes(b)
  {
    if b == [] {
      assert a + b == a;
    } else {
      var b' := b[..|b| - 1];
      assert (a + b)[..|a + b| - 1] == a + b';
      assert (a + b)[|a + b| - 1] == b[|b| - 1];
      OutcomesAppend(a, b');
    }
  }

  /** An iteration reports an answer only when it posts its paper. */
  lemma OutcomesOfStep(p: Paper, filed: set<string>, status: int)
    ensures Outcomes(Step(p, filed, status)) == if p.title in filed then [] else [Outcome(IssueTitle(p), status)]
  {
    var step := Step(p, filed, status);
    if p.title !in filed {
      assert step[..1] == [FoundNew(p.title)];
      assert Outcomes(step[..1]) == [];
    } else {
      assert step[..0] == [];
    }
  }

  /** The answer the n-th result adds: none if it is skipped, otherwise the
      tracker's answer to its post. */
  function NewAnswer(results: seq<Paper>, n: nat, filed: set<string>, respond: nat -> int): seq<Event>
    requires 0 < n <= |results|
  {
    var p := results[n - 1];
    if p.title in filed then [] else [Outcome(IssueTitle(p), respond(|NewPapers(results, n - 1, filed)|))]
  }

  /** One more result adds the tracker's answer to the reported answers
      exactly when that result is posted. */
  lemma OutcomesOfEvents(results: seq<Paper>, n: nat, filed: set<string>, respond: nat -> int)
    requires 0 < n <= |results|
    ensures Outcomes(Events(results, n, filed, respond))
         == Outcomes(Events(results, n - 1, filed, respond)) + NewAnswer(results, n, filed, respond)
  {
    var status := respond(|NewPapers(results, n - 1, filed)|);
    OutcomesAppend(Events(results, n - 1, filed, respond), Step(results[n - 1], filed, status));
    OutcomesOfStep(results[n - 1], filed, status);
  }

  /** The answers the tracker gives to the posts of `ps`, in order: the k-th
      post is answered with `respond(k)`. */
  function Answers(ps: seq<Paper>, respond: nat -> int): seq<Event>
  {
    seq(|ps|, k requires 0 <= k < |ps| => Outcome(IssueTitle(ps[k]), respond(k)))
  }

  lemma AnswersSnoc(ps: seq<Paper>, p: Paper, respond: nat -> int)
    ensures Answers(ps + [p], respond) == Answers(ps, respond) + [Outcome(IssueTitle(p), respond(|ps|))]
  {
    var a, b := Answers(ps + [p], respond), Answers(ps, respond) + [Outcome(IssueTitle(p), respond(|ps|))];
    assert |a| == |b|;
    forall k | 0 <= k < |a|
      ensures a[k] == b[k]
    {
      if k < |ps| {
        assert (ps + [p])[k] == ps[k];
      }
    }
  }

  /** One more result adds an answer to those of the posted papers exactly
      when that result is posted. */
  lemma AnswersStep(results: seq<Paper>, n: nat, filed: set<string>, respond: nat -> int)
    requires 0 < n <= |results|
    ensures Answers(NewPapers(results, n, filed), respond)
         == Answers(NewPapers(results, n - 1, filed), respond) + NewAnswer(results, n, filed, respond)
  {
    var p, before := results[n - 1], NewPapers(results, n - 1, filed);
    if p.title in filed {
      assert NewPapers(results, n, filed) == before + [];
      assert before + [] == before;
      assert Answers(before, respond) + [] == Answers(before, respond);
    } else {
      AnswersSnoc(before, p, respond);
    }
  }

  /** The answers reported in the log are those the tracker gave, one per
      posted paper and in the order of posting. */
  lemma {:induction false} OutcomesAreAnswers(results: seq<Paper>, n: nat, filed: set<string>, respond: nat -> int)
    requires n <= |results|
    ensures Outcomes(Events(results, n, filed, respond)) == Answers(NewPapers(results, n, filed), respond)
  {
    if n > 0 {
      var earlier, step := Outcomes(Events(results, n - 1, filed, respond)), NewAnswer(results, n, filed, respond);
      OutcomesAreAnswers(results, n - 1, filed, respond);
      assert earlier == Answers(NewPapers(results, n - 1, filed), respond);
      OutcomesOfEvents(results, n, filed, respond);
      AnswersStep(results, n, filed, respond);
      assert Answers(NewPapers(results, n, filed), respond) == earlier + step;
    }
  }

  /** Every posted paper gets its own answer, whatever the earlier answers
      were: the k-th answer in the log is success exactly when the tracker
      answered the k-th post with 201, and it names the k-th paper's issue. */
  lemma OutcomesFollowAnswers(results: seq<Paper>, n: nat, filed: set<string>, respond: nat -> int, k: nat)
    requires n <= |results| && k < |NewPapers(results, n, filed)|
    ensures |Outcomes(Events(results, n, filed, respond))| == |NewPapers(results, n, filed)|
    ensures Outcomes(Events(results, n, filed, respond))[k]
         == Outcome(IssueTitle(NewPapers(results, n, filed)[k]), respond(k))
  {
    OutcomesAreAnswers(results, n, filed, respond);
  }
}
