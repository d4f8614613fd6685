/** Turning one search result into an issue title and body
    (scripts/check_arxiv.py, `search_arxiv`, lines 58-68). */
module Formatter {
  import opened Text

  /** One search result: title, author names in order, abstract, entry link
      and an optional PDF link. */
  datatype Paper = Paper(title: string, authors: seq<string>, summary: string, entryId: string, pdfUrl: Option<string>)

  const TitlePrefix := "[New Paper] "

  /** Recovers the paper title from an issue title, if it carries the prefix. */
  function StripTitlePrefix(t: string): Option<string>
  {
    if |TitlePrefix| <= |t| && t[..|TitlePrefix|] == TitlePrefix then Some(t[|TitlePrefix|..]) else None
  }

  /** `f"[New Paper] {result.title}"`: the prefix, then the paper title
      unchanged, so stripping the prefix gives the title back. */
  function IssueTitle(p: Paper): (t: string)
    ensures |t| == |TitlePrefix| + |p.title|
    ensures StripTitlePrefix(t) == Some(p.title)
  {
    var t := TitlePrefix + p.title;
    assert t[..|TitlePrefix|] == TitlePrefix && t[|TitlePrefix|..] == p.title;
    t
  }

  /** Different papers titles give different issue titles. */
  lemma IssueTitleInjective(p: Paper, q: Paper)
    requires IssueTitle(p) == IssueTitle(q)
    ensures p.title == q.title
  {
    assert StripTitlePrefix(IssueTitle(p)) == Some(p.title);
  }

  /** The independent description of the body: the lines of the Markdown
      document, each one to be followed by a newline.  The PDF line is there
      only for a truthy `pdf_url`. */
  function BodyLines(p: Paper): seq<string>
  {
    ["**Title:** " + p.title,
     "**Authors:** " + Join(", ", p.authors),
     "",
     "**Abstract:**",
     p.summary,
     "",
     "**arXiv Link:** " + p.entryId]
    + (if Truthy(p.pdfUrl) then [PdfLine(p.pdfUrl.value)] else [])
  }

  function PdfLine(url: string): string
  {
    "**PDF Link:** " + url
  }

  /** The body as the script accumulates it, one `issue_body += f"..."` at a
      time; it is the document `BodyLines` describes. */
  method FormatBody(p: Paper) returns (body: string)
    ensures body == Unlines(BodyLines(p))
  {
    var authors := Join(", ", p.authors);
    body := "**Title:** " + p.title + "\n";
    ghost var lines := ["**Title:** " + p.title];
    UnlinesAppend([], lines);

    body := body + ("**Authors:** " + authors + "\n\n");
    TwoLines("**Authors:** " + authors);
    UnlinesAppend(lines, ["**Authors:** " + authors, ""]);
    lines := lines + ["**Authors:** " + authors, ""];

    body := body + ("**Abstract:**\n" + p.summary + "\n\n");
    AbstractLines(p.summary);
    UnlinesAppend(lines, ["**Abstract:**", p.summary, ""]);
    lines := lines + ["**Abstract:**", p.summary, ""];

    body := body + ("**arXiv Link:** " + p.entryId + "\n");
    UnlinesAppend(lines, ["**arXiv Link:** " + p.entryId]);
    lines := lines + ["**arXiv Link:** " + p.entryId];

    if Truthy(p.pdfUrl) {
      body := body + ("**PDF Link:** " + p.pdfUrl.value + "\n");
      UnlinesAppend(lines, [PdfLine(p.pdfUrl.value)]);
      lines := lines + [PdfLine(p.pdfUrl.value)];
    }
    assert lines == BodyLines(p);
  }

  /** `f"{x}\n\n"` is the line `x` followed by a blank line. */
  lemma TwoLines(x: string)
    ensures x + "\n\n" == Unlines([x, ""])
  {
    assert [x, ""][1..] == [""];
    assert [""][1..] == [];
  }

  /** `f"**Abstract:**\n{s}\n\n"` is the heading line, the abstract and a
      blank line. */
  lemma AbstractLines(s: string)
    ensures "**Abstract:**\n" + s + "\n\n" == Unlines(["**Abstract:**", s, ""])
  {
    var ls := ["**Abstract:**", s, ""];
    assert ls[1..] == [s, ""];
    TwoLines(s);
    assert "**Abstract:**\n" == "**Abstract:**" + "\n";
  }

  /** The body always ends with a newline, with or without a PDF link. */
  lemma BodyEndsWithNewline(p: Paper)
    ensures var b := Unlines(BodyLines(p)); |b| > 0 && b[|b| - 1] == '\n'
  {
    UnlinesEndsWithNewline(BodyLines(p));
  }

  /** The PDF line comes last: the body is the body of the same paper without
      a PDF link, followed by the PDF line exactly when `pdf_url` is truthy. */
  lemma PdfLineIsLast(p: Paper)
    ensures Unlines(BodyLines(p))
         == Unlines(BodyLines(p.(pdfUrl := None)))
            + (if Truthy(p.pdfUrl) then PdfLine(p.pdfUrl.value) + "\n" else "")
  {
    var q := p.(pdfUrl := None);
    assert BodyLines(q) == BodyLines(p)[..7];
    UnlinesAppend(BodyLines(p)[..7], BodyLines(p)[7..]);
    assert BodyLines(p)[..7] + BodyLines(p)[7..] == BodyLines(p);
    if Truthy(p.pdfUrl) {
      assert BodyLines(p)[7..] == [PdfLine(p.pdfUrl.value)];
    } else {
      assert BodyLines(p)[7..] == [];
    }
  }

  /** No field of the record holds a line break. */
  predicate SingleLineFields(p: Paper)
  {
    '\n' !in p.title && '\n' !in Join(", ", p.authors) && '\n' !in p.summary && '\n' !in p.entryId
    && (p.pdfUrl.Some? ==> '\n' !in p.pdfUrl.value)
  }

  /** Read back line by line (Python's `body.split("\n")`), a body whose
      fields are single lines shows the sections in order: title, authors,
      blank, abstract heading, abstract, blank, entry link; then the PDF line
      if and only if `pdf_url` is truthy; then the empty piece after the
      final newline. */
  lemma BodyLayout(p: Paper)
    requires SingleLineFields(p)
    ensures var ls := SplitLines(Unlines(BodyLines(p)));
      (|ls| == 9 <==> Truthy(p.pdfUrl)) && (|ls| == 8 <==> !Truthy(p.pdfUrl))
      && ls[0] == "**Title:** " + p.title
      && ls[1] == "**Authors:** " + Join(", ", p.authors)
      && ls[2] == "" && ls[3] == "**Abstract:**" && ls[4] == p.summary && ls[5] == ""
      && ls[6] == "**arXiv Link:** " + p.entryId
      && (Truthy(p.pdfUrl) ==> ls[7] == PdfLine(p.pdfUrl.value))
      && ls[|ls| - 1] == ""
  {
    var ls := BodyLines(p);
    forall i | 0 <= i < |ls|
      ensures '\n' !in ls[i]
    {
      if i == 7 {
        assert ls[7] == "**PDF Link:** " + p.pdfUrl.value;
      }
    }
    SplitUnlines(ls);
  }
  /** The lines before the abstract ... */
  function HeadLines(p: Paper): seq<string>
  {
    ["**Title:** " + p.title, "**Authors:** " + Join(", ", p.authors), "", "**Abstract:**"]
  }

  /** ... and after it. */
  function TailLines(p: Paper): seq<string>
  {
    ["", "**arXiv Link:** " + p.entryId] + (if Truthy(p.pdfUrl) then [PdfLine(p.pdfUrl.value)] else [])
  }

  /** An abstract may hold line breaks of its own: read back line by line,
      the body is the heading lines, then the abstract's own pieces, then the
      blank line, the entry link, the PDF line if and only if `pdf_url` is
      truthy, and the empty piece after the final newline. */
  lemma BodyLayoutMultiLineAbstract(p: Paper)
    requires '\n' !in p.title && '\n' !in Join(", ", p.authors) && '\n' !in p.entryId
    requires p.pdfUrl.Some? ==> '\n' !in p.pdfUrl.value
    ensures SplitLines(Unlines(BodyLines(p))) == HeadLines(p) + SplitLines(p.summary) + TailLines(p) + [""]
  {
    var head, tail := HeadLines(p), TailLines(p);
    assert BodyLines(p) == head + [p.summary] + tail;
    forall i | 0 <= i < |head|
      ensures '\n' !in head[i]
    {
    }
    forall i | 0 <= i < |tail|
      ensures '\n' !in tail[i]
    {
      if i == 2 {
        assert tail[2] == "**PDF Link:** " + p.pdfUrl.value;
      }
    }
    SplitUnlinesAround(head, p.summary, tail);
  }
}
