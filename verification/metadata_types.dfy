/** The typed document metadata the repository-level code works on:
    `DocMeta`, its `DocInfo` and its per-page annotation maps. Only the
    fields that code reads or writes are modelled. */
module MetadataTypes {

  import opened Wrappers
  import opened Dicts

  datatype TextType = Html | PlainText | Markdown

  /** `Text`: a body under one or more of the HTML, TEXT and MARKDOWN keys. */
  datatype Text = Text(html: Option<string>, text: Option<string>, markdown: Option<string>)

  /** `Texts.create(body, type)`: the body under the key of its type only. */
  function CreateText(body: string, textType: TextType): (r: Text)
    ensures r.html == (if textType == Html then Some(body) else None)
    ensures r.text == (if textType == PlainText then Some(body) else None)
    ensures r.markdown == (if textType == Markdown then Some(body) else None)
  {
    match textType
    case Html => Text(Some(body), None, None)
    case PlainText => Text(None, Some(body), None)
    case Markdown => Text(None, None, Some(body))
  }

  /** `Tag`; its `label` is `labelText` here, `label` being a Dafny keyword. */
  datatype Tag = Tag(id: string, labelText: string)

  datatype FlashcardType = BasicFrontBack | Clozure

  datatype Flashcard = Flashcard(id: string, guid: string, created: string, lastUpdated: string,
                                 flashcardType: FlashcardType, fields: Dict<string, Text>, archetype: string)

  /** A text highlight, area highlight or comment: the fields the repository
      view reads. */
  datatype Highlight = Highlight(id: string, guid: string, created: string,
                                 color: Option<string>, image: Option<string>)

  /** `AnnotationType`. */
  datatype AnnotationType = TextHighlightType | AreaHighlightType | CommentType | FlashcardAnnotationType | PagemarkType

  /** A page's annotation maps, keyed by annotation id; `None` is a map the
      page does not have. */
  datatype PageMeta = PageMeta(textHighlights: Option<Dict<string, Highlight>>,
                               areaHighlights: Option<Dict<string, Highlight>>,
                               comments: Option<Dict<string, Highlight>>,
                               flashcards: Option<Dict<string, Flashcard>>)

  datatype DocInfo = DocInfo(fingerprint: string, title: Option<string>, filename: Option<string>,
                             hashcode: Option<string>, uuid: Option<string>, tags: Option<Dict<string, Tag>>)

  /** `DocMeta`: the document's info and its pages keyed by page number. */
  datatype DocMeta = DocMeta(docInfo: DocInfo, pageMetas: Dict<int, PageMeta>)

  /** `docMeta.getPageMeta(pageNum)`: the page, or an error when the
      document has no such page (`NaN` is `None`). */
  function GetPageMeta(d: DocMeta, pageNum: Option<int>): (r: Result<PageMeta>)
    ensures r.Ok? <==> pageNum.Some? && HasKey(d.pageMetas, pageNum.value)
    ensures r.Ok? ==> Some(r.value) == Get(d.pageMetas, pageNum.value)
  {
    if pageNum.Some? && HasKey(d.pageMetas, pageNum.value) then Ok(Get(d.pageMetas, pageNum.value).value)
    else Err("No pageMeta for page")
  }

  /** The document with page `pageNum` replaced. */
  function WithPage(d: DocMeta, pageNum: int, p: PageMeta): (r: DocMeta)
    ensures r.docInfo == d.docInfo
    ensures Get(r.pageMetas, pageNum) == Some(p)
    ensures forall n :: n != pageNum ==> Get(r.pageMetas, n) == Get(d.pageMetas, n)
    ensures HasKey(d.pageMetas, pageNum) ==> Keys(r.pageMetas) == Keys(d.pageMetas)
  {
    d.(pageMetas := Put(d.pageMetas, pageNum, p))
  }
}
