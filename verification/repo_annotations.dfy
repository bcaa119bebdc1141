/** `RepoAnnotations`: flattens a document's annotations into the rows of
    the annotation repository view. `Annotations.toText`,
    `HighlightColors.withDefaultColor` and `Images.toImg` (with its file
    resolver) are parameters. */
module RepoAnnotations {

  import opened Wrappers
  import opened Dicts
  import opened MetadataTypes

  /** The annotation a row was made from. */
  datatype SourceAnnotation = HighlightSource(highlight: Highlight) | CardSource(card: Flashcard)

  datatype RepoHighlightInfo = RepoHighlightInfo(color: string)

  /** `RepoAnnotation`; the image reference is whatever `toImg` yields. */
  datatype RepoAnnotation = RepoAnnotation(id: string, guid: string, fingerprint: string, text: Option<string>,
                                           annotationType: AnnotationType, created: string, tags: Dict<string, Tag>,
                                           meta: Option<RepoHighlightInfo>, docInfo: DocInfo, img: Option<string>,
                                           original: SourceAnnotation)

  /** The collaborators a conversion consults. */
  datatype Collaborators = Collaborators(toText: (AnnotationType, SourceAnnotation) -> Option<string>,
                                         withDefaultColor: Option<string> -> string,
                                         toImg: Option<string> -> Option<string>)

  function SourceId(a: SourceAnnotation): string {
    match a
    case HighlightSource(h) => h.id
    case CardSource(c) => c.id
  }

  function SourceGuid(a: SourceAnnotation): string {
    match a
    case HighlightSource(h) => h.guid
    case CardSource(c) => c.guid
  }

  function SourceCreated(a: SourceAnnotation): string {
    match a
    case HighlightSource(h) => h.created
    case CardSource(c) => c.created
  }

  function SourceColor(a: SourceAnnotation): Option<string> {
    if a.HighlightSource? then a.highlight.color else None
  }

  function SourceImage(a: SourceAnnotation): Option<string> {
    if a.HighlightSource? then a.highlight.image else None
  }

  /** `toRepoAnnotation(…, sourceAnnotation, type, docInfo)`: the row keeps
      the annotation's identity and the document's fingerprint, info and
      tags (none when it has no tag map); text and area highlights get a
      colour, area highlights an image. */
  function ToRepoAnnotation(c: Collaborators, a: SourceAnnotation, t: AnnotationType, docInfo: DocInfo): (r: RepoAnnotation)
    ensures r.id == SourceId(a) && r.guid == SourceGuid(a) && r.created == SourceCreated(a) && r.original == a
    ensures r.annotationType == t && r.text == c.toText(t, a)
    ensures r.fingerprint == docInfo.fingerprint && r.docInfo == docInfo && r.tags == docInfo.tags.GetOr([])
    ensures r.meta.Some? <==> t == TextHighlightType || t == AreaHighlightType
    ensures r.meta.Some? ==> r.meta.value.color == c.withDefaultColor(SourceColor(a))
    ensures t != AreaHighlightType ==> r.img.None?
    ensures t == AreaHighlightType ==> r.img == c.toImg(SourceImage(a))
  {
    var meta := if t == TextHighlightType || t == AreaHighlightType
                then Some(RepoHighlightInfo(c.withDefaultColor(SourceColor(a)))) else None;
    var img := if t == AreaHighlightType then c.toImg(SourceImage(a)) else None;
    RepoAnnotation(SourceId(a), SourceGuid(a), docInfo.fingerprint, c.toText(t, a), t, SourceCreated(a),
                   docInfo.tags.GetOr([]), meta, docInfo, img, a)
  }

  /** The rows of annotations of one type, in the map's order. */
  function RowsOf(c: Collaborators, sources: seq<SourceAnnotation>, t: AnnotationType, docInfo: DocInfo): (r: seq<RepoAnnotation>)
    ensures |r| == |sources|
    ensures forall i :: 0 <= i < |sources| ==> r[i] == ToRepoAnnotation(c, sources[i], t, docInfo)
    ensures OfDocument(r, docInfo)
    ensures TypedRun(r, 0, |r|, t)
  {
    seq(|sources|, i requires 0 <= i < |sources| => ToRepoAnnotation(c, sources[i], t, docInfo))
  }

  /** `Object.values(map || {})` over highlights. */
  function Highlights(m: Option<Dict<string, Highlight>>): (r: seq<SourceAnnotation>)
    ensures m.None? ==> r == []
    ensures m.Some? ==> |r| == |m.value| && forall i :: 0 <= i < |r| ==> r[i] == HighlightSource(m.value[i].1)
  {
    var hs := if m.Some? then Values(m.value) else [];
    seq(|hs|, i requires 0 <= i < |hs| => HighlightSource(hs[i]))
  }

  /** `Object.values(map || {})` over flashcards. */
  function Cards(m: Option<Dict<string, Flashcard>>): (r: seq<SourceAnnotation>)
    ensures m.None? ==> r == []
    ensures m.Some? ==> |r| == |m.value| && forall i :: 0 <= i < |r| ==> r[i] == CardSource(m.value[i].1)
  {
    var cs := if m.Some? then Values(m.value) else [];
    seq(|cs|, i requires 0 <= i < |cs| => CardSource(cs[i]))
  }

  /** The number of annotations a page holds, a missing map holding none. */
  function PageCount(p: PageMeta): nat {
    |p.textHighlights.GetOr([])| + |p.areaHighlights.GetOr([])| + |p.comments.GetOr([])| + |p.flashcards.GetOr([])|
  }

  /** Every row belongs to the document. */
  predicate OfDocument(rows: seq<RepoAnnotation>, docInfo: DocInfo) {
    forall i :: 0 <= i < |rows| ==> rows[i].fingerprint == docInfo.fingerprint && rows[i].docInfo == docInfo
  }

  lemma OfDocumentAppend(a: seq<RepoAnnotation>, b: seq<RepoAnnotation>, docInfo: DocInfo)
    requires OfDocument(a, docInfo) && OfDocument(b, docInfo)
    ensures OfDocument(a + b, docInfo)
  {
    forall i | 0 <= i < |a + b|
      ensures (a + b)[i].fingerprint == docInfo.fingerprint && (a + b)[i].docInfo == docInfo
    {
      if i >= |a| {
        assert (a + b)[i] == b[i - |a|];
      }
    }
  }

  /** One page's rows: its text highlights, then its area highlights, then
      its comments, then its flashcards. */
  function PageRows(c: Collaborators, p: PageMeta, docInfo: DocInfo): (r: seq<RepoAnnotation>)
    ensures |r| == PageCount(p)
    ensures OfDocument(r, docInfo)
  {
    var text := RowsOf(c, Highlights(p.textHighlights), TextHighlightType, docInfo);
    var area := RowsOf(c, Highlights(p.areaHighlights), AreaHighlightType, docInfo);
    var comments := RowsOf(c, Highlights(p.comments), CommentType, docInfo);
    var cards := RowsOf(c, Cards(p.flashcards), FlashcardAnnotationType, docInfo);
    OfDocumentAppend(text, area, docInfo);
    OfDocumentAppend(text + area, comments, docInfo);
    OfDocumentAppend(text + area + comments, cards, docInfo);
    text + area + comments + cards
  }

  /** The rows at positions `lo` to `hi` (exclusive) are of type `t`. */
  predicate TypedRun(rows: seq<RepoAnnotation>, lo: int, hi: int, t: AnnotationType)
    requires 0 <= lo <= hi <= |rows|
  {
    forall i :: lo <= i < hi ==> rows[i].annotationType == t
  }

  /** Four runs, each of one type, keep their types once concatenated. */
  lemma {:induction false} TypedRuns(w: seq<RepoAnnotation>, x: seq<RepoAnnotation>, y: seq<RepoAnnotation>, z: seq<RepoAnnotation>,
                                     tw: AnnotationType, tx: AnnotationType, ty: AnnotationType, tz: AnnotationType)
    requires TypedRun(w, 0, |w|, tw) && TypedRun(x, 0, |x|, tx) && TypedRun(y, 0, |y|, ty) && TypedRun(z, 0, |z|, tz)
    ensures var r := w + x + y + z;
            TypedRun(r, 0, |w|, tw) && TypedRun(r, |w|, |w| + |x|, tx) &&
            TypedRun(r, |w| + |x|, |w| + |x| + |y|, ty) && TypedRun(r, |w| + |x| + |y|, |r|, tz)
  {
    var r := w + x + y + z;
    forall i | 0 <= i < |w| ensures r[i].annotationType == tw { assert r[i] == w[i]; }
    forall i | |w| <= i < |w| + |x| ensures r[i].annotationType == tx { assert r[i] == x[i - |w|]; }
    forall i | |w| + |x| <= i < |w| + |x| + |y| ensures r[i].annotationType == ty {
      assert r[i] == y[i - |w| - |x|];
    }
    forall i | |w| + |x| + |y| <= i < |r| ensures r[i].annotationType == tz {
      assert r[i] == z[i - |w| - |x| - |y|];
    }
  }

  /** Within a page the rows come in four runs: the text highlights, the
      area highlights, the comments, then the flashcards, each run as long
      as its map (a missing map giving an empty run). */
  lemma PageRowsOrder(c: Collaborators, p: PageMeta, docInfo: DocInfo)
    ensures var r := PageRows(c, p, docInfo);
            var a := |p.textHighlights.GetOr([])|;
            var b := a + |p.areaHighlights.GetOr([])|;
            var e := b + |p.comments.GetOr([])|;
            e <= |r| &&
            TypedRun(r, 0, a, TextHighlightType) && TypedRun(r, a, b, AreaHighlightType) &&
            TypedRun(r, b, e, CommentType) && TypedRun(r, e, |r|, FlashcardAnnotationType)
  {
    var text := RowsOf(c, Highlights(p.textHighlights), TextHighlightType, docInfo);
    var area := RowsOf(c, Highlights(p.areaHighlights), AreaHighlightType, docInfo);
    var comments := RowsOf(c, Highlights(p.comments), CommentType, docInfo);
    var cards := RowsOf(c, Cards(p.flashcards), FlashcardAnnotationType, docInfo);
    assert PageRows(c, p, docInfo) == text + area + comments + cards;
    TypedRuns(text, area, comments, cards, TextHighlightType, AreaHighlightType, CommentType, FlashcardAnnotationType);
  }

  /** The rows of a run of pages, page by page. */
  function PagesRows(c: Collaborators, pages: seq<PageMeta>, docInfo: DocInfo): (r: seq<RepoAnnotation>)
  {
    FlatMap(p => PageRows(c, p, docInfo), pages)
  }

  /** `f` applied to each element, the results concatenated in order. */
  function FlatMap<T, U>(f: T -> seq<U>, xs: seq<T>): seq<U>
    decreases |xs|
  {
    if |xs| == 0 then [] else f(xs[0]) + FlatMap(f, xs[1..])
  }

  lemma {:induction false} FlatMapAppend<T, U>(f: T -> seq<U>, a: seq<T>, b: seq<T>)
    ensures FlatMap(f, a + b) == FlatMap(f, a) + FlatMap(f, b)
    decreases |a|
  {
    if |a| == 0 {
      assert a + b == b;
    } else {
      assert (a + b)[0] == a[0] && (a + b)[1..] == a[1..] + b;
      FlatMapAppend(f, a[1..], b);
    }
  }

  lemma {:induction false} PagesRowsOfDocument(c: Collaborators, pages: seq<PageMeta>, docInfo: DocInfo)
    ensures OfDocument(PagesRows(c, pages, docInfo), docInfo)
    decreases |pages|
  {
    if |pages| > 0 {
      PagesRowsOfDocument(c, pages[1..], docInfo);
      OfDocumentAppend(PageRows(c, pages[0], docInfo), PagesRows(c, pages[1..], docInfo), docInfo);
    }
  }

  function TotalCount(pages: seq<PageMeta>): nat
    decreases |pages|
  {
    if |pages| == 0 then 0 else PageCount(pages[0]) + TotalCount(pages[1..])
  }

  /** `convert(…, docMeta)`: every annotation of every page, page by page in
      the document's page order. */
  function Convert(c: Collaborators, d: DocMeta): (r: seq<RepoAnnotation>)
    ensures forall i :: 0 <= i < |r| ==> r[i].fingerprint == d.docInfo.fingerprint && r[i].docInfo == d.docInfo
    ensures |r| == TotalCount(Values(d.pageMetas))
  {
    RowCount(c, Values(d.pageMetas), d.docInfo);
    PagesRowsOfDocument(c, Values(d.pageMetas), d.docInfo);
    PagesRows(c, Values(d.pageMetas), d.docInfo)
  }

  /** There is one row per annotation. */
  lemma {:induction false} RowCount(c: Collaborators, pages: seq<PageMeta>, docInfo: DocInfo)
    ensures |PagesRows(c, pages, docInfo)| == TotalCount(pages)
    decreases |pages|
  {
    if |pages| > 0 {
      RowCount(c, pages[1..], docInfo);
    }
  }

  /** The rows of consecutive runs of pages follow one another. */
  lemma PagesRowsAppend(c: Collaborators, a: seq<PageMeta>, b: seq<PageMeta>, docInfo: DocInfo)
    ensures PagesRows(c, a + b, docInfo) == PagesRows(c, a, docInfo) + PagesRows(c, b, docInfo)
  {
    FlatMapAppend(p => PageRows(c, p, docInfo), a, b);
  }

  /** Every text highlight of every page has its row, typed as a text
      highlight and carrying the highlight itself. */
  lemma TextHighlightListed(c: Collaborators, d: DocMeta, page: int, j: int)
    requires 0 <= page < |d.pageMetas|
    requires d.pageMetas[page].1.textHighlights.Some? && 0 <= j < |d.pageMetas[page].1.textHighlights.value|
    ensures ToRepoAnnotation(c, HighlightSource(d.pageMetas[page].1.textHighlights.value[j].1), TextHighlightType, d.docInfo)
              in Convert(c, d)
  {
    var pages := Values(d.pageMetas);
    TextHighlightInPage(c, pages[page], d.docInfo, j);
    FlatMapMember(q => PageRows(c, q, d.docInfo), pages, page,
                  ToRepoAnnotation(c, HighlightSource(pages[page].textHighlights.value[j].1), TextHighlightType, d.docInfo));
  }

  lemma TextHighlightInPage(c: Collaborators, p: PageMeta, docInfo: DocInfo, j: int)
    requires p.textHighlights.Some? && 0 <= j < |p.textHighlights.value|
    ensures ToRepoAnnotation(c, HighlightSource(p.textHighlights.value[j].1), TextHighlightType, docInfo) in PageRows(c, p, docInfo)
  {
    var rows := RowsOf(c, Highlights(p.textHighlights), TextHighlightType, docInfo);
    assert rows[j] == PageRows(c, p, docInfo)[j];
  }

  lemma {:induction false} FlatMapMember<T, U>(f: T -> seq<U>, xs: seq<T>, i: nat, y: U)
    requires i < |xs| && y in f(xs[i])
    ensures y in FlatMap(f, xs)
    decreases i
  {
    if i > 0 {
      FlatMapMember(f, xs[1..], i - 1, y);
    }
  }

  /** `isValid`: every row is valid. */
  function IsValid(a: RepoAnnotation): (valid: bool)
    ensures valid
  {
    true
  }

  /** `toTags(repoAnnotation)`: the row's tags, none without a row. */
  function ToTags(a: Option<RepoAnnotation>): (r: seq<Tag>)
    ensures a.None? ==> r == []
    ensures a.Some? ==> |r| == |a.value.tags| && forall i :: 0 <= i < |r| ==> r[i] == a.value.tags[i].1
  {
    if a.Some? then Values(a.value.tags) else []
  }

  /** A row's tags are its document's tags. */
  lemma ToTagsOfRow(c: Collaborators, s: SourceAnnotation, t: AnnotationType, docInfo: DocInfo)
    ensures ToTags(Some(ToRepoAnnotation(c, s, t, docInfo))) == if docInfo.tags.Some? then Values(docInfo.tags.value) else []
  {
  }
}
