/** Filing an issue on the tracker (scripts/check_arxiv.py,
    `create_github_issue`, lines 15-28) and the run's console log. */
module Poster {

  /** The JSON record `{"title": ..., "body": ..., "labels": [...]}`. */
  datatype IssueRequest = IssueRequest(title: string, body: string, labels: seq<string>)

  const NewPaperLabel := "new-paper"

  /** The only status the script treats as success. */
  const Created201 := 201

  /** What the run reports, in order. */
  datatype Event =
    | AlreadyExists(paperTitle: string)   // a result the duplicate check skipped
    | FoundNew(paperTitle: string)        // a result about to be filed
    | Created(issueTitle: string)         // the tracker answered 201
    | Failed(status: int)                 // the tracker answered anything else
    | NoNewPapers                         // nothing was filed in the whole run
    | MissingToken                        // no token: nothing was searched

  /** The report for one answer: success for 201, a failure carrying the
      status code for every other answer. */
  function Outcome(issueTitle: string, status: int): (e: Event)
    ensures e.Created? <==> status == Created201
    ensures e.Created? ==> e.issueTitle == issueTitle
    ensures e.Failed? <==> status != Created201
    ensures e.Failed? ==> e.status == status
  {
    if status == Created201 then Created(issueTitle) else Failed(status)
  }

  /** One POST of `{title, body, labels: ["new-paper"]}`.  The request is
      what the tracker receives; `status` is its answer, which is reported
      and never aborts anything. */
  method CreateIssue(title: string, body: string, status: int) returns (request: IssueRequest, outcome: Event)
    ensures request.title == title && request.body == body && request.labels == [NewPaperLabel]
    ensures outcome == Outcome(title, status)
  {
    request := IssueRequest(title, body, [NewPaperLabel]);
    outcome := Outcome(title, status);
  }
}
