/** The map updates of `AreaHighlightController`: a window message asks to
    create an area highlight at a context-menu location or to delete the
    area highlights a context-menu event names. The new highlight, as
    `AreaHighlights.create` builds it from the location's rectangle, is a
    parameter. */
module AreaHighlightControllers {

  import opened Wrappers
  import opened Dicts
  import opened MetadataTypes

  /** An area highlight to delete: `annotationDescriptor.pageNum` and
      `.annotationId`. */
  datatype DeleteTarget = DeleteTarget(pageNum: Option<int>, annotationId: string)

  /** `event.data`: its `type`, the page of the context-menu location, and
      the descriptors under `matchingSelectors[".area-highlight"]` (`None`
      when the message has none). */
  datatype AreaMessage = AreaMessage(messageType: Option<string>, pageNum: Option<int>,
                                     targets: Option<seq<DeleteTarget>>)

  /** `onCreateAreaHighlight`: the highlight is stored under its id on the
      location's page. */
  function OnCreate(d: DocMeta, pageNum: Option<int>, highlight: Highlight): (r: Result<DocMeta>)
    ensures r.Ok? <==> pageNum.Some? && HasKey(d.pageMetas, pageNum.value) &&
                       Get(d.pageMetas, pageNum.value).value.areaHighlights.Some?
    ensures r.Ok? ==>
              var before := Get(d.pageMetas, pageNum.value).value;
              HasKey(r.value.pageMetas, pageNum.value) &&
              var after := Get(r.value.pageMetas, pageNum.value).value;
              after.areaHighlights.Some? &&
              Get(after.areaHighlights.value, highlight.id) == Some(highlight) &&
              (forall id :: id != highlight.id ==> Get(after.areaHighlights.value, id) == Get(before.areaHighlights.value, id)) &&
              (forall n :: n != pageNum.value ==> Get(r.value.pageMetas, n) == Get(d.pageMetas, n))
  {
    var page :- GetPageMeta(d, pageNum);
    match page.areaHighlights
    case None => Err("Cannot set property of undefined")
    case Some(highlights) =>
      Ok(WithPage(d, pageNum.value, page.(areaHighlights := Some(Put(highlights, highlight.id, highlight)))))
  }

  /** The deletion of one descriptor's highlight from its page. */
  function DeleteOne(d: DocMeta, t: DeleteTarget): (r: Result<DocMeta>)
    ensures r.Ok? <==> t.pageNum.Some? && HasKey(d.pageMetas, t.pageNum.value) &&
                       Get(d.pageMetas, t.pageNum.value).value.areaHighlights.Some?
    ensures r.Ok? ==>
              var before := Get(d.pageMetas, t.pageNum.value).value;
              HasKey(r.value.pageMetas, t.pageNum.value) &&
              var after := Get(r.value.pageMetas, t.pageNum.value).value;
              after.areaHighlights.Some? &&
              !HasKey(after.areaHighlights.value, t.annotationId) &&
              (forall id :: id != t.annotationId ==> Get(after.areaHighlights.value, id) == Get(before.areaHighlights.value, id)) &&
              (forall n :: n != t.pageNum.value ==> Get(r.value.pageMetas, n) == Get(d.pageMetas, n))
  {
    var page :- GetPageMeta(d, t.pageNum);
    match page.areaHighlights
    case None => Err("Cannot convert undefined or null to object")
    case Some(highlights) =>
      Ok(WithPage(d, t.pageNum.value, page.(areaHighlights := Some(Remove(highlights, t.annotationId)))))
  }

  /** `DeleteOne` succeeds on `t`: its page exists and has an area
      highlight map. */
  predicate Deletable(d: DocMeta, t: DeleteTarget) {
    t.pageNum.Some? && HasKey(d.pageMetas, t.pageNum.value) &&
    Get(d.pageMetas, t.pageNum.value).value.areaHighlights.Some?
  }

  /** A deletion keeps every page and every page's area highlight map, so
      it never changes which descriptors can be deleted. */
  lemma DeleteOneKeepsDeletable(d: DocMeta, t: DeleteTarget, u: DeleteTarget)
    requires Deletable(d, t)
    ensures Deletable(DeleteOne(d, t).value, u) <==> Deletable(d, u)
  {
  }

  /** `onDeleteAreaHighlight`: each descriptor in turn; the first one whose
      page or map is missing throws, and the deletions made before it stay
      in the document. */
  function OnDelete(d: DocMeta, targets: seq<DeleteTarget>): (r: Partial<DocMeta>)
    ensures r.state.docInfo == d.docInfo
    ensures r.thrown.None? <==> forall i :: 0 <= i < |targets| ==> Deletable(d, targets[i])
    ensures |targets| > 0 && !Deletable(d, targets[0]) ==> r.state == d
    decreases |targets|
  {
    if |targets| == 0 then Partial(d, None)
    else
      match DeleteOne(d, targets[0])
      case Err(e) => Partial(d, Some(e))
      case Ok(next) =>
        assert forall u :: Deletable(next, u) <==> Deletable(d, u) by {
          forall u ensures Deletable(next, u) <==> Deletable(d, u) {
            DeleteOneKeepsDeletable(d, targets[0], u);
          }
        }
        assert forall i :: 1 <= i < |targets| ==> targets[i] == targets[1..][i - 1];
        OnDelete(next, targets[1..])
  }

  /** `onMessageReceived`: only the two message types act. */
  function OnMessageReceived(d: DocMeta, data: Option<AreaMessage>, highlight: Highlight): (r: Partial<DocMeta>)
    ensures data.None? ==> r == Partial(d, None)
    ensures data.Some? && data.value.messageType !in {Some("create-area-highlight"), Some("delete-area-highlight")} ==>
              r == Partial(d, None)
    ensures data.Some? && data.value.messageType == Some("create-area-highlight") ==>
              var c := OnCreate(d, data.value.pageNum, highlight);
              r == if c.Ok? then Partial(c.value, None) else Partial(d, Some(c.message))
    ensures data.Some? && data.value.messageType == Some("delete-area-highlight") && data.value.targets.Some? ==>
              r == OnDelete(d, data.value.targets.value)
    ensures data.Some? && data.value.messageType == Some("delete-area-highlight") && data.value.targets.None? ==>
              r.state == d && r.thrown.Some?
  {
    match data
    case None => Partial(d, None)
    case Some(m) =>
      if m.messageType == Some("create-area-highlight") then
        match OnCreate(d, m.pageNum, highlight)
        case Ok(next) => Partial(next, None)
        case Err(e) => Partial(d, Some(e))
      else if m.messageType == Some("delete-area-highlight") then
        match m.targets
        case None => Partial(d, Some("Cannot read property 'annotationDescriptors' of undefined"))
        case Some(ts) => OnDelete(d, ts)
      else Partial(d, None)
  }

  /** Deleting `ts + us` is deleting `ts` and then, unless that threw,
      deleting `us` from what it left; when it threw, the deletions it had
      made are kept. */
  lemma {:induction false} OnDeleteAppend(d: DocMeta, ts: seq<DeleteTarget>, us: seq<DeleteTarget>)
    ensures var m := OnDelete(d, ts);
            OnDelete(d, ts + us) == if m.thrown.Some? then m else OnDelete(m.state, us)
    decreases |ts|
  {
    if |ts| == 0 {
      assert ts + us == us;
    } else {
      assert (ts + us)[0] == ts[0];
      assert (ts + us)[1..] == ts[1..] + us;
      match DeleteOne(d, ts[0])
      case Err(_) =>
      case Ok(next) =>
        OnDeleteAppend(next, ts[1..], us);
    }
  }

  /** Deleting an id the page does not have leaves the document as it was. */
  lemma {:induction false} DeleteAbsentIsNoop(d: DocMeta, t: DeleteTarget)
    requires t.pageNum.Some? && HasKey(d.pageMetas, t.pageNum.value)
    requires Get(d.pageMetas, t.pageNum.value).value.areaHighlights.Some?
    requires !HasKey(Get(d.pageMetas, t.pageNum.value).value.areaHighlights.value, t.annotationId)
    ensures OnDelete(d, [t]) == Partial(d, None)
  {
    var page := Get(d.pageMetas, t.pageNum.value).value;
    RemoveAbsent(page.areaHighlights.value, t.annotationId);
    assert page.(areaHighlights := Some(Remove(page.areaHighlights.value, t.annotationId))) == page;
    PutSame(d.pageMetas, t.pageNum.value);
    assert DeleteOne(d, t) == Ok(d);
    assert [t][1..] == [];
  }

  /** Creating a highlight under a new id and then deleting that id gives
      back the document. */
  lemma {:induction false} CreateThenDeleteRestores(d: DocMeta, pageNum: int, highlight: Highlight)
    requires HasKey(d.pageMetas, pageNum) && Get(d.pageMetas, pageNum).value.areaHighlights.Some?
    requires !HasKey(Get(d.pageMetas, pageNum).value.areaHighlights.value, highlight.id)
    ensures OnCreate(d, Some(pageNum), highlight).Ok?
    ensures OnDelete(OnCreate(d, Some(pageNum), highlight).value, [DeleteTarget(Some(pageNum), highlight.id)]) == Partial(d, None)
  {
    var page := Get(d.pageMetas, pageNum).value;
    var highlights := page.areaHighlights.value;
    var created := page.(areaHighlights := Some(Put(highlights, highlight.id, highlight)));
    var once := WithPage(d, pageNum, created);
    assert OnCreate(d, Some(pageNum), highlight) == Ok(once);
    RemoveAfterPut(highlights, highlight.id, highlight);
    assert created.(areaHighlights := Some(Remove(created.areaHighlights.value, highlight.id))) == page;
    PutTwice(d.pageMetas, pageNum, created, page);
    PutSame(d.pageMetas, pageNum);
    var t := DeleteTarget(Some(pageNum), highlight.id);
    assert DeleteOne(once, t) == Ok(d);
    assert [t][1..] == [];
  }
}
