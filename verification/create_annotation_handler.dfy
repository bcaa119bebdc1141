/** `CreateAnnotationHandler.handleIPC`: a flashcard created from the
    context menu is stored on its page of the open document. The document
    is the model's `docMeta`; the flashcard is the one `new Flashcard(...)`
    builds from the message (`Flashcard` is not part of this model). The
    handler always returns `undefined`, so its only effect is on the
    document. */
module CreateAnnotationHandlers {

  import opened Wrappers
  import opened Dicts
  import opened MetadataTypes
  import opened AnnotationDescriptors

  /** The page with `card` stored under its id. */
  function StoreCard(p: PageMeta, card: Flashcard): Result<PageMeta> {
    match p.flashcards
    case None => Err("Cannot set property of undefined")
    case Some(cards) => Ok(p.(flashcards := Some(Put(cards, card.id, card))))
  }

  /** Annotations that are not flashcards, and flashcards for another
      document, leave the document as it is. */
  function HandleIPC(d: DocMeta, descriptor: AnnotationDescriptor<AnnotationType>, card: Flashcard): (r: Result<DocMeta>)
    ensures descriptor.annotationType != FlashcardAnnotationType ==> r == Ok(d)
    ensures descriptor.docFingerprint != Some(d.docInfo.fingerprint) ==> r == Ok(d)
    ensures r.Ok? ==> r.value.docInfo == d.docInfo
  {
    if descriptor.annotationType != FlashcardAnnotationType then Ok(d)
    else if descriptor.docFingerprint != Some(d.docInfo.fingerprint) then Ok(d)
    else
      var page :- GetPageMeta(d, descriptor.pageNum);
      var updated :- StoreCard(page, card);
      Ok(WithPage(d, descriptor.pageNum.value, updated))
  }

  /** A flashcard for the open document fails only when its page, or that
      page's flashcard map, is missing; otherwise it is stored under its id
      on its page, and no other page, annotation map or flashcard
      changes. */
  lemma HandleStoresCard(d: DocMeta, descriptor: AnnotationDescriptor<AnnotationType>, card: Flashcard,
                         n: int, id: string)
    requires descriptor.annotationType == FlashcardAnnotationType
    requires descriptor.docFingerprint == Some(d.docInfo.fingerprint)
    ensures var r := HandleIPC(d, descriptor, card);
            r.Ok? <==> (descriptor.pageNum.Some? && HasKey(d.pageMetas, descriptor.pageNum.value) &&
                        Get(d.pageMetas, descriptor.pageNum.value).value.flashcards.Some?)
    ensures var r := HandleIPC(d, descriptor, card);
            r.Ok? ==>
              var pageNum := descriptor.pageNum.value;
              var before := Get(d.pageMetas, pageNum).value;
              var after := Get(r.value.pageMetas, pageNum).value;
              Get(after.flashcards.value, card.id) == Some(card) &&
              (id != card.id ==> Get(after.flashcards.value, id) == Get(before.flashcards.value, id)) &&
              after.textHighlights == before.textHighlights && after.areaHighlights == before.areaHighlights &&
              after.comments == before.comments &&
              (n != pageNum ==> Get(r.value.pageMetas, n) == Get(d.pageMetas, n))
  {
  }

  /** Receiving the same message twice leaves the document as receiving it
      once. */
  lemma {:induction false} HandleIdempotent(d: DocMeta, descriptor: AnnotationDescriptor<AnnotationType>, card: Flashcard)
    requires HandleIPC(d, descriptor, card).Ok?
    ensures HandleIPC(HandleIPC(d, descriptor, card).value, descriptor, card) == HandleIPC(d, descriptor, card)
  {
    if descriptor.annotationType == FlashcardAnnotationType && descriptor.docFingerprint == Some(d.docInfo.fingerprint) {
      var n := descriptor.pageNum.value;
      var page := Get(d.pageMetas, n).value;
      var updated := StoreCard(page, card).value;
      var once := WithPage(d, n, updated);
      assert GetPageMeta(once, descriptor.pageNum) == Ok(updated);
      PutTwice(page.flashcards.value, card.id, card, card);
      assert StoreCard(updated, card) == Ok(updated);
      PutTwice(d.pageMetas, n, updated, updated);
    }
  }
}
