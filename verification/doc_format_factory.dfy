/** `DocFormatFactory`: picks the document format named by the page's
    `polar-doc-format` meta element. The element's `content` attribute is an
    input: `None` when the element or the attribute is missing. */
module DocFormatFactories {

  import opened Wrappers

  datatype DocFormat = HtmlFormat | PdfFormat

  /** `getPolarDocFormat()`: the meta content when it is present and
      non-empty, otherwise "none"; never null. */
  function GetPolarDocFormat(content: Option<string>): (r: string)
    ensures content.Some? && content.value != "" ==> r == content.value
    ensures content.None? || content.value == "" ==> r == "none"
  {
    match content
    case Some(c) => if c != "" then c else "none"
    case None => "none"
  }

  /** The branches of `getInstance()` on a format name that may be null
      (`None`): "html", "pdf", null, and anything else throws. */
  function Dispatch(format: Option<string>): (r: Result<DocFormat>)
  {
    match format
    case Some(f) =>
      if f == "html" then Ok(HtmlFormat)
      else if f == "pdf" then Ok(PdfFormat)
      else Err("Unable to handle the given format: " + f)
    case None => Ok(PdfFormat)
  }

  /** `getInstance()`. */
  function GetInstance(content: Option<string>): (r: Result<DocFormat>)
    ensures r == Ok(HtmlFormat) <==> content == Some("html")
    ensures r == Ok(PdfFormat) <==> content == Some("pdf")
    ensures r.Err? <==> GetPolarDocFormat(content) != "html" && GetPolarDocFormat(content) != "pdf"
  {
    Dispatch(Some(GetPolarDocFormat(content)))
  }

  /** The null branch of `getInstance()` is dead: the format it dispatches on
      is never null, and without a usable meta element it is "none", which
      throws rather than falling back to PDF. */
  lemma NullBranchUnreachable(content: Option<string>)
    ensures GetInstance(content) == Dispatch(Some(GetPolarDocFormat(content)))
    ensures Dispatch(None) == Ok(PdfFormat)
    ensures content.None? || content == Some("") ==> GetInstance(content) == Err("Unable to handle the given format: none")
  {
  }
}
