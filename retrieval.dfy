/** The two retrieval tools. The vector-store lookup that produces the ranked
    documents is not modelled: both tools take the ranked documents as input
    and only format them. */
module Retrieval {
  import opened Text

  /** A retrieved chunk: its text and its (scalar, string-valued) metadata. */
  datatype Document = Document(content: string, metadata: map<string, string>)

  // ---------------------------------------------------------------------------
  // retrieve_context: "\n\n".join(strip(d.content) for d in docs if d.content)
  // ---------------------------------------------------------------------------

  /** A document contributes to the context when its raw content is non-empty
      (before stripping). */
  predicate Contributes(d: Document)
  {
    d.content != ""
  }

  /** The stripped contents of the contributing documents, in retrieval order. */
  function Segments(docs: seq<Document>): seq<string>
  {
    if docs == [] then []
    else
      var last := docs[|docs| - 1];
      Segments(docs[..|docs| - 1]) + (if Contributes(last) then [Strip(last.content)] else [])
  }

  /** Positions of the contributing documents, in increasing order. */
  function ContributingIndices(docs: seq<Document>): (idx: seq<nat>)
    ensures forall i :: 0 <= i < |idx| ==> idx[i] < |docs| && Contributes(docs[idx[i]])
    ensures forall i, j :: 0 <= i < j < |idx| ==> idx[i] < idx[j]
  {
    if docs == [] then []
    else
      var n := |docs| - 1;
      var prev := ContributingIndices(docs[..n]);
      assert forall i :: 0 <= i < |prev| ==> docs[prev[i]] == docs[..n][prev[i]];
      assert forall j :: 0 <= j < n ==> docs[j] == docs[..n][j];
      prev + (if Contributes(docs[n]) then [n] else [])
  }

  /** Every contributing document is listed. */
  lemma {:induction false} ContributingIndicesComplete(docs: seq<Document>, j: nat)
    requires j < |docs| && Contributes(docs[j])
    ensures j in ContributingIndices(docs)
  {
    var n := |docs| - 1;
    if j < n {
      ContributingIndicesComplete(docs[..n], j);
    }
  }

  /** `retrieve_context` on the documents the retriever returned. */
  function RetrieveContext(docs: seq<Document>): string
  {
    Join("\n\n", Segments(docs))
  }

  /** The context has one segment per contributing document, and segment `i`
      is exactly the stripped content of the `i`-th contributing document. */
  lemma {:induction false} SegmentsAt(docs: seq<Document>)
    ensures |Segments(docs)| == |ContributingIndices(docs)|
    ensures forall i :: 0 <= i < |Segments(docs)| ==>
      Segments(docs)[i] == Strip(docs[ContributingIndices(docs)[i]].content)
  {
    if docs != [] {
      var n := |docs| - 1;
      var prefix := docs[..n];
      var segs, prev := Segments(prefix), ContributingIndices(prefix);
      SegmentsAt(prefix);
      var tail := if Contributes(docs[n]) then [Strip(docs[n].content)] else [];
      assert Segments(docs) == segs + tail;
      assert ContributingIndices(docs) == prev + (if Contributes(docs[n]) then [n] else []);
      forall i | 0 <= i < |Segments(docs)|
        ensures Segments(docs)[i] == Strip(docs[ContributingIndices(docs)[i]].content)
      {
        if i < |segs| {
          assert segs[i] == Strip(prefix[prev[i]].content);
          assert prefix[prev[i]] == docs[prev[i]];
        }
      }
    }
  }

  /** Appending one more retrieved document extends the context by its
      stripped content after a blank line, or leaves it unchanged when the
      document's content is empty. */
  lemma ContextSnoc(docs: seq<Document>, d: Document)
    ensures RetrieveContext(docs + [d]) ==
      if !Contributes(d) then RetrieveContext(docs)
      else if Segments(docs) == [] then Strip(d.content)
      else RetrieveContext(docs) + "\n\n" + Strip(d.content)
  {
    assert (docs + [d])[..|docs|] == docs;
    if Contributes(d) {
      assert Segments(docs + [d]) == Segments(docs) + [Strip(d.content)];
      JoinSnoc("\n\n", Segments(docs), Strip(d.content));
    } else {
      assert Segments(docs + [d]) == Segments(docs) + [];
      assert Segments(docs) + [] == Segments(docs);
    }
  }

  /** A whitespace-only document passes the filter and adds an empty segment:
      after an earlier segment, a bare blank-line separator. */
  lemma WhitespaceOnlyAddsEmptySegment(docs: seq<Document>, d: Document)
    requires d.content != "" && AllSpace(d.content)
    requires Segments(docs) != []
    ensures RetrieveContext(docs + [d]) == RetrieveContext(docs) + "\n\n"
  {
    ContextSnoc(docs, d);
    StripSpec(d.content);
  }

  /** The context is empty exactly when no segment is produced, or a single
      segment is produced and it strips to nothing. */
  lemma ContextEmptyIff(docs: seq<Document>)
    ensures RetrieveContext(docs) == "" <==>
      |Segments(docs)| == 0 || (|Segments(docs)| == 1 && Segments(docs)[0] == "")
  {
    if |Segments(docs)| > 1 {
      JoinLength("\n\n", Segments(docs));
    }
  }

  // ---------------------------------------------------------------------------
  // retrieve_citations
  // ---------------------------------------------------------------------------

  /** Longest snippet kept verbatim; longer ones are cut to this length. */
  const SnippetLimit: nat := 600
  const Ellipsis: string := "..."

  /** Python's `m.get(k, default)`. */
  function Get(m: map<string, string>, k: string, default: string): string
  {
    if k in m then m[k] else default
  }

  /** `m.get("title", "") or m.get("source", "")`: a missing or empty title
      falls back to the source, and that to the empty string. */
  function Title(m: map<string, string>): (title: string)
    ensures "title" in m && m["title"] != "" ==> title == m["title"]
    ensures !("title" in m && m["title"] != "") ==>
      title == (if "source" in m then m["source"] else "")
  {
    var t := Get(m, "title", "");
    if t != "" then t else Get(m, "source", "")
  }

  /** `m.get("link", "")`. */
  function Link(m: map<string, string>): string
  {
    Get(m, "link", "")
  }

  /** The stripped content, hard-truncated to `SnippetLimit` characters with an
      ellipsis appended when it is longer. */
  function Snippet(content: string): (snippet: string)
    ensures |snippet| <= SnippetLimit + |Ellipsis|
    ensures |Strip(content)| <= SnippetLimit ==> snippet == Strip(content)
    ensures |Strip(content)| > SnippetLimit ==>
      |snippet| == SnippetLimit + |Ellipsis| &&
      snippet[..SnippetLimit] == Strip(content)[..SnippetLimit] &&
      snippet[SnippetLimit..] == Ellipsis
  {
    var s := Strip(content);
    if |s| > SnippetLimit then s[..SnippetLimit] + Ellipsis else s
  }

  /** One bullet of `retrieve_citations`: `- <snippet>\n  [Source: <title>](<link>)`. */
  function CitationLine(d: Document): string
  {
    "- " + Snippet(d.content) + "\n  [Source: " + Title(d.metadata) + "](" + Link(d.metadata) + ")"
  }

  /** The citation lines, one per document, in retrieval order. */
  function CitationLines(docs: seq<Document>): seq<string>
  {
    if docs == [] then [] else CitationLines(docs[..|docs| - 1]) + [CitationLine(docs[|docs| - 1])]
  }

  /** Exactly one line per retrieved document, nothing filtered, order kept. */
  lemma {:induction false} CitationLinesAt(docs: seq<Document>)
    ensures |CitationLines(docs)| == |docs|
    ensures forall i :: 0 <= i < |docs| ==> CitationLines(docs)[i] == CitationLine(docs[i])
  {
    if docs != [] {
      var n := |docs| - 1;
      var prefix := docs[..n];
      var lines := CitationLines(prefix);
      CitationLinesAt(prefix);
      assert CitationLines(docs) == lines + [CitationLine(docs[n])];
      forall i | 0 <= i < |docs| ensures CitationLines(docs)[i] == CitationLine(docs[i]) {
        if i < n {
          assert lines[i] == CitationLine(prefix[i]);
          assert prefix[i] == docs[i];
        }
      }
    }
  }

  /** Every citation line starts with the bullet and the snippet, and the
      snippet starts with a prefix of the stripped content. */
  lemma CitationLineShape(d: Document)
    ensures var line, sn := CitationLine(d), Snippet(d.content);
      && line[..2] == "- "
      && line[2..2 + |sn|] == sn
      && line[2 + |sn|..] == "\n  [Source: " + Title(d.metadata) + "](" + Link(d.metadata) + ")"
      && (var k := if |sn| < SnippetLimit then |sn| else SnippetLimit;
          sn[..k] == Strip(d.content)[..k])
  {
    var line, sn := CitationLine(d), Snippet(d.content);
    var tail := "\n  [Source: " + Title(d.metadata) + "](" + Link(d.metadata) + ")";
    assert line == "- " + sn + tail;
  }

  /** `retrieve_citations`: builds the list of lines in a loop and joins them
      with newlines. */
  method RetrieveCitations(docs: seq<Document>) returns (out: string)
    ensures out == Join("\n", CitationLines(docs))
  {
    var lines: seq<string> := [];
    var i := 0;
    while i < |docs|
      invariant 0 <= i <= |docs|
      invariant lines == CitationLines(docs[..i])
    {
      var d := docs[i];
      var title := Get(d.metadata, "title", "");
      if title == "" {
        title := Get(d.metadata, "source", "");
      }
      var link := Get(d.metadata, "link", "");
      var snippet := Strip(d.content);
      if |snippet| > SnippetLimit {
        snippet := snippet[..SnippetLimit] + Ellipsis;
      }
      lines := lines + ["- " + snippet + "\n  [Source: " + title + "](" + link + ")"];
      assert docs[..i + 1][..i] == docs[..i];
      i := i + 1;
    }
    assert docs[..i] == docs;
    out := Join("\n", lines);
  }
}
