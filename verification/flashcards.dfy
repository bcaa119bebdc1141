/** `Flashcards`: building flashcards, and `MockFlashcards`, which puts one
    on every page of a document. The clock (`ISODateTimeStrings.create`)
    and `Hashcodes.createID` are parameters. */
module Flashcards {

  import opened Wrappers
  import opened Dicts
  import opened MetadataTypes
  import JsStrings

  /** `Hashcodes.createID({fields})`: the id a flashcard gets from its
      fields. */
  type CreateID = Dict<string, Text> -> string

  /** `create(type, fields, archetype)`: null fields are rejected; the id is
      computed from the fields alone and doubles as the guid, and the card
      is created and last updated at the same instant. */
  function Create(flashcardType: FlashcardType, fields: Option<Dict<string, Text>>, archetype: string,
                  now: string, createID: CreateID): (r: Result<Flashcard>)
    ensures r.Err? <==> fields.None?
    ensures r.Ok? ==> r.value.id == r.value.guid == createID(fields.value)
    ensures r.Ok? ==> r.value.created == r.value.lastUpdated == now
    ensures r.Ok? ==> r.value.flashcardType == flashcardType && r.value.fields == fields.value && r.value.archetype == archetype
  {
    match fields
    case None => Err("Precondition failed: fields")
    case Some(f) =>
      var id := createID(f);
      Ok(Flashcard(id, id, now, now, flashcardType, f, archetype))
  }

  /** Two cards made from the same fields get the same id whatever their
      type, archetype or creation time: the id does not tell them apart. */
  lemma SameFieldsSameId(t1: FlashcardType, t2: FlashcardType, fields: Dict<string, Text>,
                         a1: string, a2: string, now1: string, now2: string, createID: CreateID)
    ensures Create(t1, Some(fields), a1, now1, createID).Ok? && Create(t2, Some(fields), a2, now2, createID).Ok?
    ensures Create(t1, Some(fields), a1, now1, createID).value.id == Create(t2, Some(fields), a2, now2, createID).value.id
  {
  }

  function HtmlText(value: string): Text {
    CreateText(value, Html)
  }

  /** The fields built from the form data: each own key, in order, set to
      an HTML text of its value. */
  function FormFields(formData: Dict<string, string>): Dict<string, Text> {
    PutAll([], MapValues(formData, HtmlText))
  }

  /** `createFromSchemaFormData(formData, archetype)`: always a
      BASIC_FRONT_BACK card. */
  function CreateFromSchemaFormData(formData: Dict<string, string>, archetype: string,
                                    now: string, createID: CreateID): (r: Flashcard)
    ensures r.flashcardType == BasicFrontBack && r.archetype == archetype
    ensures r.id == r.guid == createID(r.fields)
  {
    Create(BasicFrontBack, Some(FormFields(formData)), archetype, now, createID).value
  }

  /** For form data with distinct keys (any JavaScript object) the card has
      one HTML text field per form key, in the form's order, carrying the
      same value. */
  lemma SchemaFields(formData: Dict<string, string>, archetype: string, now: string, createID: CreateID, k: string)
    requires UniqueKeys(formData)
    ensures var fields := CreateFromSchemaFormData(formData, archetype, now, createID).fields;
            Keys(fields) == Keys(formData) &&
            Get(fields, k) == if HasKey(formData, k) then Some(CreateText(Get(formData, k).value, Html)) else None
  {
    var mapped := MapValues(formData, HtmlText);
    GetOfMapped(formData, mapped, HtmlText, k);
    PutAllFresh(mapped);
    assert Keys(mapped) == Keys(formData);
  }

  const MockArchetype: string := "9d146db1-7c31-4bcf-866b-7b485c4e50ea"

  /** The HTML front of the mock card, before the page index is appended. */
  const MockFront: string := "What is the capital of California? <img src=\"data:image/gif;base64,R0lGODlhEAAQAMQAAORHHOVSKudfOulrSOp3WOyDZu6QdvCchPGolfO0o/XBs/fNwfjZ0frl3/zy7////wAAAAAAAAAAAAAAAAAAAAAAAAAAAAAAAAAAAAAAAAAAAAAAAAAAAAAAAAAAAAAAACH5BAkAABAALAAAAAAQABAAAAVVICSOZGlCQAosJ6mu7fiyZeKqNKToQGDsM8hBADgUXoGAiqhSvp5QAnQKGIgUhwFUYLCVDFCrKUE1lBavAViFIDlTImbKC5Gm2hB0SlBCBMQiB0UjIQA7\" />\n"

  /** The fields of the mock card for the `idx`-th page. */
  function MockFields(idx: nat): Dict<string, Text> {
    [("Front", CreateText(MockFront + JsStrings.ToDecimal(idx), Html)), ("Back", CreateText("Sacramento", PlainText))]
  }

  function MockCard(idx: nat, now: string, createID: CreateID): Flashcard {
    Create(Clozure, Some(MockFields(idx)), MockArchetype, now, createID).value
  }

  /** The page with `card` stored under its id in the flashcard map. */
  function WithCard(p: PageMeta, card: Flashcard): PageMeta
    requires p.flashcards.Some?
  {
    p.(flashcards := Some(Put(p.flashcards.value, card.id, card)))
  }

  /** How many leading pages have a flashcard map: the loop of
      `attachFlashcards` gets that far before it throws. */
  function Reach(pages: Dict<int, PageMeta>): (k: nat)
    ensures k <= |pages|
    ensures forall i :: 0 <= i < k ==> pages[i].1.flashcards.Some?
    ensures k < |pages| ==> pages[k].1.flashcards.None?
    decreases |pages|
  {
    if |pages| == 0 || pages[0].1.flashcards.None? then 0
    else 1 + Reach(pages[1..])
  }

  /** The loop of `attachFlashcards` from the `idx`-th page on, `card(i)`
      being the card for the `i`-th page. Writing into a page without a
      flashcard map throws; the pages written before it keep their card. */
  function AttachFrom(pages: Dict<int, PageMeta>, idx: nat, card: nat -> Flashcard): (r: Partial<Dict<int, PageMeta>>)
    ensures r.thrown.None? <==> forall i :: 0 <= i < |pages| ==> pages[i].1.flashcards.Some?
    ensures |r.state| == |pages|
    ensures forall i :: 0 <= i < Reach(pages) ==> r.state[i] == (pages[i].0, WithCard(pages[i].1, card(idx + i)))
    ensures forall i :: Reach(pages) <= i < |pages| ==> r.state[i] == pages[i]
    decreases |pages|
  {
    if |pages| == 0 then Partial([], None)
    else if pages[0].1.flashcards.None? then Partial(pages, Some("Cannot set property of undefined"))
    else
      var rest := AttachFrom(pages[1..], idx + 1, card);
      var r := Partial([(pages[0].0, WithCard(pages[0].1, card(idx)))] + rest.state, rest.thrown);
      assert forall i :: 1 <= i < |pages| ==> r.state[i] == rest.state[i - 1] && pages[i] == pages[1..][i - 1];
      assert Reach(pages) == 1 + Reach(pages[1..]);
      r
  }

  /** `MockFlashcards.attachFlashcards(docMeta)`: the document as the loop
      leaves it, and what it threw. */
  function AttachFlashcards(d: DocMeta, now: string, createID: CreateID): (r: Partial<DocMeta>)
    ensures r.state.docInfo == d.docInfo
  {
    var pages := AttachFrom(d.pageMetas, 0, (i: nat) => MockCard(i, now, createID));
    Partial(d.(pageMetas := pages.state), pages.thrown)
  }

  /** Every page keeps its number and gains exactly the one mock card for
      its position, under the card's id; its other cards and maps stay. */
  lemma AttachAddsOneCardPerPage(d: DocMeta, now: string, createID: CreateID, i: nat, id: string)
    requires i < Reach(d.pageMetas)
    ensures var pages := AttachFlashcards(d, now, createID).state.pageMetas;
            var before := d.pageMetas[i].1;
            var after := pages[i].1;
            var card := MockCard(i, now, createID);
            |pages| == |d.pageMetas| && pages[i].0 == d.pageMetas[i].0 &&
            after.textHighlights == before.textHighlights && after.areaHighlights == before.areaHighlights &&
            after.comments == before.comments &&
            Get(after.flashcards.value, card.id) == Some(card) &&
            (id != card.id ==> Get(after.flashcards.value, id) == Get(before.flashcards.value, id))
  {
  }
}
