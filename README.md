# Daily arXiv-to-issue script, modelled in Dafny

The repository holds one batch script, `scripts/check_arxiv.py`. Once a day it:

1. searches arXiv for papers on reinforcement learning that were submitted yesterday;
2. skips every paper whose title its duplicate check reports;
3. files one GitHub issue for each of the other papers;
4. prints a line for every step.

This project models the deterministic part of that script and proves what it promises. The modules are:

- `Text`: optional strings with Python truthiness, `str.join`, newline-terminated lines, and `str.split("\n")`.
- `Dates`: calendar dates and their `%Y%m%d` rendering, with the parse that inverts it. It also gives the 14-digit `%Y%m%d%H%M%S` stamp and its value as a number.
- `Query`: the search expression `(topic) AND submittedDate:[d000000 TO d235959]` and the search request (20 results, newest submissions first).
- `Formatter`: the `Paper` record, the issue title `"[New Paper] " + title`, and the Markdown body.
  - The body is built by the method `FormatBody`, one append at a time, as the script does it.
  - The method is proved equal to an independent line-by-line description, `BodyLines`.
- `Poster`: the request record `{title, body, labels: ["new-paper"]}`, the treatment of the tracker's answer (201 is success, anything else is a reported failure), and the events the script prints.
- `Driver`: the loop of `search_arxiv`, the "no new papers" report, and the token guard of the entry point.
  - The loop is the method `FileResults`. It is proved against specification functions over the first `n` results: `NewPapers`, `RequestsFor` and `Events`.
  - The properties of the run are lemmas about those functions.
  - The duplicate check is a set of already-filed titles, passed as a parameter. The script's own `check_if_issue_exists` is `CheckIfIssueExists`, which is membership in the empty set `StubFiled`.

Outside effects come into the model as inputs, and the script's output leaves it as results:

- The search service's holdings are the input `available`.
- The clock is the input `yesterday`.
- The environment token is the input `token`.
- The tracker's answer to the k-th post of the run is `respond(k)`.
- What the tracker receives is the result `posted`.
- What the script prints is the result `log`.

## Model

| member | source | states |
|---|---|---|
| Formatter.IssueTitle | scripts/check_arxiv.py:59 | The issue title is the prefix "[New Paper] " followed by the paper title unchanged: its length is the prefix's plus the title's, and stripping the prefix gives back exactly the paper title. |
| Formatter.IssueTitleInjective | scripts/check_arxiv.py:59 | Papers with different titles never get the same issue title. |
| Formatter.FormatBody | scripts/check_arxiv.py:61-68 | The body built by the first assignment and the four appends after it, the last of them conditional, is the newline-terminated document of lines: title, comma-joined authors, blank, abstract heading, abstract, blank, entry link, then the PDF line only for a truthy `pdf_url`. |
| Formatter.BodyLayout | scripts/check_arxiv.py:62-68 | Split at newlines, a body whose fields are single lines gives the sections in order. It has 9 pieces exactly when `pdf_url` is truthy and 8 exactly when it is not; the PDF piece is the eighth, and the last piece is empty. |
| Formatter.BodyLayoutMultiLineAbstract | scripts/check_arxiv.py:62-68 | When only the abstract may hold line breaks, the body splits into the four heading lines, then the abstract's own pieces, then the blank line and the entry link, then the PDF line exactly when `pdf_url` is truthy, then the empty piece after the final newline. |
| Formatter.PdfLineIsLast | scripts/check_arxiv.py:67-68 | The body is the body of the same paper without a PDF link, followed by the PDF line exactly when `pdf_url` is truthy. |
| Formatter.BodyEndsWithNewline | scripts/check_arxiv.py:63-68 | The body is never empty and its last character is a newline, with or without a PDF link. |
| Text.Truthy | scripts/check_arxiv.py:67 | Python truthiness of an optional string: `None` is false, the empty string is false, and every other string is true. The same test is the token guard at line 85. |
| Text.Join | scripts/check_arxiv.py:62 | The comma-joined author list starts with the first author's name and ends with the last author's name. |
| Text.JoinAppend | scripts/check_arxiv.py:62 | Joining two non-empty lists of author names is joining each and putting one separator between them, so names keep their order. |
| Text.JoinLength | scripts/check_arxiv.py:62 | A join of n names holds exactly their characters plus n - 1 separators. |
| Text.SplitUnlines | scripts/check_arxiv.py:63-68 | Lines without newlines, terminated and then split at newlines, come back unchanged, followed by one empty piece. |
| Text.SplitUnlinesAround | scripts/check_arxiv.py:63-68 | One line that may hold newlines, between newline-free lines, splits back into the lines before it, its own pieces, the lines after it and one empty piece. |
| Text.UnlinesSplit | scripts/check_arxiv.py:63-68 | For any text, terminating each of its newline-separated pieces gives the text followed by one newline. |
| Dates.DateString | scripts/check_arxiv.py:35 | `%Y%m%d` of a valid date is eight decimal digits. |
| Dates.DateStringRoundTrip | scripts/check_arxiv.py:35 | Every valid date is read back from its eight-digit rendering. |
| Dates.ParseDateRoundTrip | scripts/check_arxiv.py:35 | Every eight-digit string that names a real date is the rendering of that date, so the rendering is one-to-one. |
| Dates.StampValue | scripts/check_arxiv.py:39 | A bound `d` + hhmmss, read as a decimal number, is YYYYMMDD times one million plus hhmmss, so the numeric order of bounds is chronological. |
| Query.BuildQuery | scripts/check_arxiv.py:39 | The query is 55 characters longer than the topic. It starts with the topic in parentheses, continues with exactly " AND submittedDate:", and ends in a range whose ends are the stamps of 00:00:00 and 23:59:59 on `d`. Together these fix every character. |
| Query.BoundsAreFirstAndLastSecond | scripts/check_arxiv.py:39 | The literal suffixes "000000" and "235959" are the stamps of the first and last second of the day. |
| Query.QuerySpansOneDate | scripts/check_arxiv.py:35-39 | Both ends of the range are 14 digits and share the same date prefix. That prefix parses back to `d`, and the lower end is numerically smaller than the upper end. |
| Query.WindowIsExactlyOneDay | scripts/check_arxiv.py:34-39 | A moment of any valid day lies between the two bounds, read as numbers, if and only if that day is `d`. |
| Query.BuildSearch | scripts/check_arxiv.py:41-46 | The search request asks for 20 results, sorted by submission date in descending order. Its query is the quoted topic in parentheses, then " AND submittedDate:", then the range of yesterday's first and last second, with the matching length. |
| Poster.Outcome | scripts/check_arxiv.py:25-28 | An answer is reported as success, carrying the issue title, if and only if the status is 201. Every other status is reported as a failure that carries that status. |
| Poster.CreateIssue | scripts/check_arxiv.py:15-28 | One post sends the given title and body with the single label "new-paper", and its report is the `Outcome` of the status. |
| Driver.CheckIfIssueExists | scripts/check_arxiv.py:75-82 | The duplicate check of the script reports no title, which is membership in the empty set of filed titles, `StubFiled`. |
| Driver.RequestFor | scripts/check_arxiv.py:22 | The request for a paper carries a title that strips back to the paper's title, the body document of the paper, and the single label "new-paper". |
| Driver.Step | scripts/check_arxiv.py:51-70 | One iteration prints one event if the duplicate check reports the title and two otherwise. The first event names the paper: "already exists" exactly when reported, "found new" exactly when not. The second is success exactly when the status is 201. |
| Driver.NewPapers | scripts/check_arxiv.py:48-56 | The first `n` results yield at most `n` papers to post. |
| Driver.Events | scripts/check_arxiv.py:48-70 | The loop itself never reports "no new papers" or a missing token. |
| Driver.FileResults | scripts/check_arxiv.py:48-70 | After the loop, the requests posted are those of the results whose title the duplicate check does not report, in result order. The counter equals the number of requests, and the log is the per-result log of skips, notices and answers. |
| Driver.SearchArxiv | scripts/check_arxiv.py:48-73 | As the loop, then "no new papers" is appended to the log, and appears in it, if and only if the counter is 0. |
| Driver.SearchResults | scripts/check_arxiv.py:41-49 | The results handed to the loop are a prefix of what the service holds. It is all of it when it holds at most the requested maximum, otherwise exactly that many. |
| Driver.Run | scripts/check_arxiv.py:84-88 | Without a truthy token there is no search, no post and only the missing-token report. With one, yesterday's search runs and its results go through `SearchArxiv`. |
| Driver.NewPapersMembership | scripts/check_arxiv.py:48-56 | A paper is posted if and only if it is among the results and its title is not reported by the duplicate check. |
| Driver.NewPapersAppend | scripts/check_arxiv.py:48-56 | Filtering two runs of results one after the other is filtering each, so posting follows result order. |
| Driver.NewPapersPrefix | scripts/check_arxiv.py:48-56 | More results later do not change what the earlier ones yield. |
| Driver.StubFilesEveryResult | scripts/check_arxiv.py:75-82 | With the stub duplicate check, which reports no title, every result is posted, one request per result. |
| Driver.RequestsInOrder | scripts/check_arxiv.py:22 | The k-th request carries the k-th paper's issue title and body and the single label "new-paper". |
| Driver.OutcomesAreAnswers | scripts/check_arxiv.py:25-28 | The answers reported in the log are, in order, the tracker's answers to the posts, one per posted paper. |
| Driver.OutcomesFollowAnswers | scripts/check_arxiv.py:25-28 | There are as many reported answers as posted papers. The k-th is success exactly when the k-th post was answered 201, whatever the other answers were, so a failure never stops later posts. |
| Driver.OutcomesAppend | scripts/check_arxiv.py:25-28 | The answers reported in two logs one after the other are those of each. |
| Driver.OutcomesOfStep | scripts/check_arxiv.py:51-70 | An iteration reports an answer only when it posts its paper. |

## Left out

- The arXiv search (`arxiv.Search`, `search.results()`) is a network call into a foreign library. The model takes what the service holds for the query as the input `available` (newest first) and keeps the first `max_results` of it.
- `requests.post` is HTTP I/O, so the URL, the headers and the response text are not modelled. A post is the request record it sends plus the status code given by the input `respond`.
- `datetime.utcnow()` and `timedelta(days=1)` are clock and calendar arithmetic. Yesterday's date is the input `yesterday`.
- `os.environ.get('GH_TOKEN')` is environment I/O. It is the input `token: Option<string>`; the guard tests its truthiness.
- Console output is not modelled as text. Each `print` is an `Event` in the returned log.
- The failure event carries the status code but not `response.text`.
- Exceptions raised by the network, the client library or the environment are not modelled.
- Driver.FileResults: the duplicate check is a fixed set of titles passed in. A check that queries the tracker is not modelled, so issues filed earlier in the same run are not seen by it. The script's stub checks nothing either way.
- Dates.DateString: pads every year to four digits. `strftime('%Y')` on glibc leaves years below 1000 unpadded. Such years are never yesterday's date.
- The constants `REPO_OWNER` and `REPO_NAME` only feed the URL, so they are not modelled.
