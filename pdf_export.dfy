/** The `/export-pdf` route (main.py:429-462) around the converter: the
    request's defaults, the placeholder for an empty document, and the
    download name built from the requested file name. */
module PdfExport {
  import opened Text
  import opened Scanner
  import opened ScannerFacts

  /** The single paragraph exported when the converter finds nothing. */
  const Placeholder: Flowable := Paragraph("No content to export.", BodyStyle)

  /** The document that is built: the converter's flowables, or the
      placeholder when there are none. */
  function WithPlaceholder(fs: seq<Flowable>): seq<Flowable> {
    if fs == [] then [Placeholder] else fs
  }

  /** The placeholder can be told apart from converted content: the
      exported document is the placeholder alone exactly when the converter
      produced nothing, because every converted document ends with a
      spacer. */
  lemma PlaceholderExactlyWhenEmpty(html: string, o: Oracles)
    ensures WithPlaceholder(Convert(html, o)) == [Placeholder] <==> Convert(html, o) == []
  {
    ConvertEndsWithSpacer(html, o);
  }

  /** A character `[^\w\-]` does not match: a word character or `-`. */
  predicate IsSafeChar(c: char) {
    IsWordChar(c) || c == '-'
  }

  /** `re.sub(r"[^\w\-]", "_", name)`, one character at a time. */
  function SafeName(name: string): string
    decreases |name|
  {
    if name == [] then []
    else [if IsSafeChar(name[0]) then name[0] else '_'] + SafeName(name[1..])
  }

  /** The substitution keeps the length and works character by character:
      a safe character is kept, any other becomes `_`. */
  lemma {:induction false} SafeNameAt(name: string)
    ensures |SafeName(name)| == |name|
    ensures forall i :: 0 <= i < |name| ==>
              SafeName(name)[i] == if IsSafeChar(name[i]) then name[i] else '_'
    decreases |name|
  {
    if name != [] {
      SafeNameAt(name[1..]);
      var r := SafeName(name);
      assert r == [r[0]] + SafeName(name[1..]);
      forall i | 1 <= i < |name|
        ensures r[i] == if IsSafeChar(name[i]) then name[i] else '_'
      {
        assert r[i] == SafeName(name[1..])[i - 1];
        assert name[1..][i - 1] == name[i];
      }
    }
  }

  /** Every character of the result is safe. */
  lemma SafeNameIsSafe(name: string)
    ensures forall i :: 0 <= i < |SafeName(name)| ==> IsSafeChar(SafeName(name)[i])
  {
    SafeNameAt(name);
  }

  /** A name is left as it is exactly when all its characters are safe. */
  lemma SafeNameFixed(name: string)
    ensures SafeName(name) == name <==> forall i :: 0 <= i < |name| ==> IsSafeChar(name[i])
  {
    SafeNameAt(name);
    if SafeName(name) == name {
      forall i | 0 <= i < |name|
        ensures IsSafeChar(name[i])
      {
        assert SafeName(name)[i] == name[i];
      }
    }
  }

  /** Sanitising twice is sanitising once. */
  lemma SafeNameIdempotent(name: string)
    ensures SafeName(SafeName(name)) == SafeName(name)
  {
    SafeNameIsSafe(name);
    SafeNameFixed(SafeName(name));
  }

  /** The `Content-Disposition` header of the response. */
  function Disposition(fileName: string): string {
    "attachment; filename=\"" + SafeName(fileName) + ".pdf\""
  }

  /** Whatever the requested name, the quoted file name in the header is
      the sanitised name with `.pdf`, and it holds no quote, no line break
      and no path separator that could end the value or change its meaning. */
  lemma DispositionQuoted(fileName: string)
    ensures var h := Disposition(fileName);
            var q := h[22..|h| - 1];
            h == "attachment; filename=\"" + q + "\""
            && q == SafeName(fileName) + ".pdf"
            && forall i :: 0 <= i < |q| ==> q[i] != '"' && q[i] != '\r' && q[i] != '\n' && q[i] != '/' && q[i] != '\\'
  {
    var n := SafeName(fileName);
    var q := n + ".pdf";
    var h := Disposition(fileName);
    assert h == "attachment; filename=\"" + q + "\"";
    assert h[22..|h| - 1] == q;
    SafeNameIsSafe(fileName);
    forall i | 0 <= i < |q|
      ensures q[i] != '"' && q[i] != '\r' && q[i] != '\n' && q[i] != '/' && q[i] != '\\'
    {
      if i < |n| {
        assert q[i] == n[i] && IsSafeChar(n[i]);
      }
    }
  }

  /** The JSON fields of the request, `None` where a field is missing. */
  datatype ExportRequest = ExportRequest(html: Option<string>, fileName: Option<string>)

  function HtmlOf(req: ExportRequest): string {
    if req.html.Some? then req.html.value else ""
  }

  function FileNameOf(req: ExportRequest): string {
    if req.fileName.Some? then req.fileName.value else "teacher_guide"
  }

  /** What the route hands to ReportLab and to the response: the flowables
      of the document and the `Content-Disposition` header. The document is
      never empty; it is the converter's output whenever that is not empty,
      and a missing `html` field exports the placeholder alone. */
  method ExportPdf(req: ExportRequest, o: Oracles) returns (flowables: seq<Flowable>, header: string)
    ensures flowables == WithPlaceholder(Convert(HtmlOf(req), o))
    ensures flowables != []
    ensures Convert(HtmlOf(req), o) != [] ==> flowables == Convert(HtmlOf(req), o)
    ensures req.html.None? ==> flowables == [Placeholder]
    ensures header == Disposition(FileNameOf(req))
  {
    var htmlContent := if req.html.Some? then req.html.value else "";
    var fileName := if req.fileName.Some? then req.fileName.value else "teacher_guide";
    ghost var turns;
    flowables, turns := HtmlToPlatypus(htmlContent, o);
    if flowables == [] {
      flowables := [Placeholder];
    }
    var safeName := SafeName(fileName);
    header := "attachment; filename=\"" + safeName + ".pdf\"";
  }
}
