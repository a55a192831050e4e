/** The server's `/merge` handler (main.py `merge_pdfs`): it concatenates the
    pages of the uploaded documents in upload order and names the result,
    adding a `.pdf` suffix when the requested name lacks one. A page is opaque
    here: the type parameter `P`; a parsed document is its page sequence. */
module MergeServer {
  import opened Wrappers
  import opened Text

  const PdfSuffix: string := ".pdf"

  /** The name used when the request carries no `output_filename` field. */
  const DefaultFilename: string := "merged.pdf"

  /** `output_filename` after the "ensure it ends with .pdf" rule: kept as it
      is when it already ends with `.pdf` (case-sensitive), otherwise
      extended by exactly `.pdf`. */
  function EnsurePdfSuffix(name: string): (r: string)
    ensures EndsWith(r, PdfSuffix)
    ensures |name| <= |r| <= |name| + |PdfSuffix| && r[..|name|] == name
    ensures r == name <==> EndsWith(name, PdfSuffix)
    ensures r != name ==> r[|name|..] == PdfSuffix
  {
    if EndsWith(name, PdfSuffix) then name
    else
      EndsWithAppended(name, PdfSuffix);
      name + PdfSuffix
  }

  /** Normalising twice is normalising once. */
  lemma EnsurePdfSuffixIdempotent(name: string)
    ensures EnsurePdfSuffix(EnsurePdfSuffix(name)) == EnsurePdfSuffix(name)
  {
  }

  /** The server's own default passes through unchanged. */
  lemma DefaultFilenameUnchanged()
    ensures EnsurePdfSuffix(DefaultFilename) == DefaultFilename
  {
    assert DefaultFilename[|DefaultFilename| - |PdfSuffix|..] == PdfSuffix;
  }

  /** The pages of `docs`, document after document, each document's pages in
      their own order: the reference for what the merge must produce. */
  function Concat<P>(docs: seq<seq<P>>): seq<P>
  {
    if |docs| == 0 then [] else Concat(docs[..|docs| - 1]) + docs[|docs| - 1]
  }

  /** Total number of pages over all documents. */
  function PageCount<P>(docs: seq<seq<P>>): nat
  {
    if |docs| == 0 then 0 else PageCount(docs[..|docs| - 1]) + |docs[|docs| - 1]|
  }

  /** The merge loop: for each uploaded document in upload order, add each of
      its pages to the writer. */
  method MergePages<P>(docs: seq<seq<P>>) returns (merged: seq<P>)
    ensures merged == Concat(docs)
    ensures |merged| == PageCount(docs)
  {
    merged := [];
    var i := 0;
    while i < |docs|
      invariant 0 <= i <= |docs|
      invariant merged == Concat(docs[..i])
      invariant |merged| == PageCount(docs[..i])
    {
      var pages := docs[i];
      var j := 0;
      while j < |pages|
        invariant 0 <= j <= |pages|
        invariant merged == Concat(docs[..i]) + pages[..j]
        invariant |merged| == PageCount(docs[..i]) + j
      {
        merged := merged + [pages[j]];
        j := j + 1;
      }
      assert docs[..i + 1][..i] == docs[..i];
      assert pages[..j] == pages;
      i := i + 1;
    }
    assert docs[..|docs|] == docs;
  }

  /** The response the handler sends on success: the merged pages and the
      file name announced in `Content-Disposition`. */
  datatype Response<P> = Response(pages: seq<P>, filename: string)

  /** What the handler answers: the merged file, or the HTTP error its
      exception handler raises. */
  datatype Reply<P> = Sent(response: Response<P>) | Error(status: int, detail: string)

  const ErrorStatus: int := 500
  const ErrorDetail: string := "An error occurred while processing PDFs."

  const DispositionPrefix: string := "attachment; filename="

  /** The `Content-Disposition` header value. The response layer encodes
      header values as Latin-1, so it can be sent exactly when the file name
      can. */
  function ContentDisposition(filename: string): (h: string)
    ensures Latin1(h) <==> Latin1(filename)
    ensures EndsWith(h, filename)
  {
    assert Latin1(DispositionPrefix);
    Latin1Append(DispositionPrefix, filename);
    EndsWithAppended(DispositionPrefix, filename);
    DispositionPrefix + filename
  }

  /** Adding the suffix does not change whether a name is Latin-1. */
  lemma SuffixKeepsLatin1(name: string)
    ensures Latin1(EnsurePdfSuffix(name)) <==> Latin1(name)
  {
    assert Latin1(PdfSuffix);
    Latin1Append(name, PdfSuffix);
  }

  /** The name the response announces. The form layer substitutes the
      declared default `merged.pdf` both when the `output_filename` field is
      absent and when it is sent empty. */
  function ResponseName(outputFilename: Option<string>): (r: string)
    ensures EndsWith(r, PdfSuffix)
    ensures (outputFilename.None? || outputFilename.value == []) ==> r == DefaultFilename
    ensures outputFilename.Some? && outputFilename.value != [] ==> r == EnsurePdfSuffix(outputFilename.value)
    ensures Latin1(r) <==> (outputFilename.None? || Latin1(outputFilename.value))
  {
    var name := outputFilename.GetOr(DefaultFilename);
    DefaultFilenameUnchanged();
    assert Latin1(DefaultFilename);
    SuffixKeepsLatin1(name);
    if name == [] then DefaultFilename else EnsurePdfSuffix(name)
  }

  /** The handler: merge the documents, normalise the requested name and
      build the response headers. Building a header the response layer cannot
      encode raises inside the handler's `try`, which answers HTTP 500. */
  method MergePdfs<P>(docs: seq<seq<P>>, outputFilename: Option<string>)
    returns (reply: Reply<P>)
    ensures reply.Sent? <==> outputFilename.None? || Latin1(outputFilename.value)
    ensures reply.Sent? ==> reply.response == Response(Concat(docs), ResponseName(outputFilename))
    ensures reply.Sent? ==> EndsWith(reply.response.filename, PdfSuffix)
    ensures reply.Error? ==> reply.status == ErrorStatus && reply.detail == ErrorDetail
  {
    var pages := MergePages(docs);
    var name := outputFilename.GetOr(DefaultFilename);
    if name == [] {
      name := DefaultFilename;
    }
    name := EnsurePdfSuffix(name);
    assert name == ResponseName(outputFilename);
    if Latin1(ContentDisposition(name)) {
      reply := Sent(Response(pages, name));
    } else {
      reply := Error(ErrorStatus, ErrorDetail);
    }
  }

  /** Merging a longer upload is merging its two parts and joining them. */
  lemma {:induction false} ConcatAppend<P>(a: seq<seq<P>>, b: seq<seq<P>>)
    ensures Concat(a + b) == Concat(a) + Concat(b)
    decreases |b|
  {
    if |b| == 0 {
      assert a + b == a;
    } else {
      var b' := b[..|b| - 1];
      assert (a + b)[..|a + b| - 1] == a + b';
      ConcatAppend(a, b');
    }
  }

  /** Page `j` of document `k` sits in the merged output right after the
      pages of the documents before it. */
  lemma {:induction false} ConcatPlacesPages<P>(docs: seq<seq<P>>, k: int, j: int)
    requires 0 <= k < |docs| && 0 <= j < |docs[k]|
    ensures |Concat(docs[..k])| + j < |Concat(docs)|
    ensures Concat(docs)[|Concat(docs[..k])| + j] == docs[k][j]
  {
    assert docs == docs[..k] + [docs[k]] + docs[k + 1..];
    ConcatAppend(docs[..k] + [docs[k]], docs[k + 1..]);
    ConcatAppend(docs[..k], [docs[k]]);
    assert Concat([docs[k]]) == docs[k] by {
      assert [docs[k]][..0] == [];
    }
  }

  /** The output length is the sum of the documents' page counts. */
  lemma {:induction false} ConcatLength<P>(docs: seq<seq<P>>)
    ensures |Concat(docs)| == PageCount(docs)
  {
    if |docs| > 0 {
      ConcatLength(docs[..|docs| - 1]);
    }
  }
}
