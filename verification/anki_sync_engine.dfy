/** `AnkiSyncEngine`: turns the flashcards of a set of documents into the
    decks and notes of a pending Anki sync job. Collecting the flashcards
    (`FlashcardDescriptors.toFlashcardDescriptors`), parsing typed tags
    (`Tags.parseTypedTag`, as the value of a parsed `name:value` tag) and
    `DocInfos.bestTitle` are parameters. */
module AnkiSyncEngines {

  import opened Wrappers
  import opened Dicts
  import opened JsStrings
  import opened MetadataTypes

  type ParseTypedTag = string -> Option<string>

  type BestTitle = DocInfo -> string

  datatype FlashcardDescriptor = FlashcardDescriptor(docMeta: DocMeta, flashcard: Flashcard)

  datatype NoteDescriptor = NoteDescriptor(guid: string, deckName: string, modelName: string,
                                           fields: Dict<string, string>, tags: seq<string>)

  datatype DeckDescriptor = DeckDescriptor(name: string)

  /** The pending job: the decks to create and the notes to add. */
  datatype PendingSyncJob = PendingSyncJob(decks: seq<DeckDescriptor>, notes: seq<NoteDescriptor>)

  predicate NonEmpty(s: Option<string>) {
    s.Some? && s.value != ""
  }

  /** A note field from a flashcard field: the first of HTML, TEXT and
      MARKDOWN that is a non-empty string, else MARKDOWN itself; the
      `Optional.get` throws when that is missing. */
  function FieldText(t: Text): (r: Result<string>)
    ensures r.Err? <==> !NonEmpty(t.html) && !NonEmpty(t.text) && t.markdown.None?
    ensures r.Ok? ==> Some(r.value) == t.html || Some(r.value) == t.text || Some(r.value) == t.markdown
    ensures r.Ok? && r.value == "" ==> !NonEmpty(t.html) && !NonEmpty(t.text) && t.markdown == Some("")
    ensures NonEmpty(t.html) ==> r == Ok(t.html.value)
    ensures !NonEmpty(t.html) && NonEmpty(t.text) ==> r == Ok(t.text.value)
  {
    if NonEmpty(t.html) then Ok(t.html.value)
    else if NonEmpty(t.text) then Ok(t.text.value)
    else if t.markdown.Some? then Ok(t.markdown.value)
    else Err("Optional value is not present")
  }

  /** A text made by `Texts.create` gives back its body, except an empty
      HTML or plain-text body, which leaves nothing to read. */
  lemma FieldTextOfCreated(body: string, textType: TextType)
    ensures FieldText(CreateText(body, textType)) ==
              if body == "" && textType != Markdown then Err("Optional value is not present") else Ok(body)
  {
  }

  /** The text of a field that has one. */
  function FieldValue(t: Text): string {
    if FieldText(t).Ok? then FieldText(t).value else ""
  }

  /** The note's fields: each flashcard field, in order, assigned its text;
      the first field without one throws. */
  function NoteFields(fields: Dict<string, Text>): (r: Result<Dict<string, string>>)
    ensures r.Err? <==> exists i :: 0 <= i < |fields| && FieldText(fields[i].1).Err?
  {
    if forall i :: 0 <= i < |fields| ==> FieldText(fields[i].1).Ok? then Ok(PutAll([], MapValues(fields, FieldValue)))
    else Err("Optional value is not present")
  }

  /** For a flashcard's fields (distinct keys) the note has the same keys in
      the same order, each carrying its field's text. */
  lemma NoteFieldsKeys(fields: Dict<string, Text>, k: string)
    requires UniqueKeys(fields)
    requires forall i :: 0 <= i < |fields| ==> FieldText(fields[i].1).Ok?
    ensures NoteFields(fields).Ok?
    ensures Keys(NoteFields(fields).value) == Keys(fields)
    ensures Get(NoteFields(fields).value, k) ==
              if HasKey(fields, k) then Some(FieldValue(Get(fields, k).value)) else None
  {
    var mapped := MapValues(fields, FieldValue);
    GetOfMapped(fields, mapped, FieldValue, k);
    PutAllFresh(mapped);
    assert Keys(mapped) == Keys(fields);
    if HasKey(fields, k) {
      GetIsMember(fields, k, Get(fields, k).value);
    }
  }

  /** The labels of the document's tags, in order; none without tags. */
  function NoteTags(docInfo: DocInfo): (r: seq<string>)
    ensures docInfo.tags.None? ==> r == []
    ensures docInfo.tags.Some? ==> |r| == |docInfo.tags.value|
    ensures docInfo.tags.Some? ==> forall i :: 0 <= i < |r| ==> r[i] == docInfo.tags.value[i].1.labelText
  {
    var tags := if docInfo.tags.Some? then Values(docInfo.tags.value) else [];
    seq(|tags|, i requires 0 <= i < |tags| => tags[i].labelText)
  }

  /** A tag that names a deck: labelled `deck:…` and parsed as a typed tag. */
  predicate IsDeck(t: Tag, parse: ParseTypedTag) {
    StartsWith(t.labelText, "deck:") && parse(t.labelText).Some?
  }

  /** Tag `i` is the last deck tag. */
  predicate IsLastDeck(tags: seq<Tag>, i: int, parse: ParseTypedTag)
    requires 0 <= i < |tags|
  {
    IsDeck(tags[i], parse) && forall j :: i < j < |tags| ==> !IsDeck(tags[j], parse)
  }

  /** The position of the last deck tag: the one whose value `.pop()` takes
      from the filtered list. */
  function LastDeck(tags: seq<Tag>, parse: ParseTypedTag): (r: Option<nat>)
    ensures r.None? <==> forall i :: 0 <= i < |tags| ==> !IsDeck(tags[i], parse)
    ensures r.Some? ==> r.value < |tags| && IsLastDeck(tags, r.value, parse)
    decreases |tags|
  {
    if |tags| == 0 then None
    else if IsDeck(tags[|tags| - 1], parse) then Some(|tags| - 1)
    else
      var init := tags[..|tags| - 1];
      var r := LastDeck(init, parse);
      assert forall i :: 0 <= i < |init| ==> init[i] == tags[i];
      r
  }

  /** Only one tag can be the last deck tag. */
  lemma LastDeckUnique(tags: seq<Tag>, parse: ParseTypedTag)
    ensures forall i :: 0 <= i < |tags| && IsLastDeck(tags, i, parse) ==> LastDeck(tags, parse) == Some(i)
  {
    forall i | 0 <= i < |tags| && IsLastDeck(tags, i, parse)
      ensures LastDeck(tags, parse) == Some(i)
    {
      var last := LastDeck(tags, parse);
      assert IsDeck(tags[i], parse);
      var j := last.value;
      assert IsDeck(tags[j], parse);
      assert j == i;
    }
  }

  /** The document's tags, none without a tag map. */
  function TagList(docInfo: DocInfo): seq<Tag> {
    if docInfo.tags.Some? then Values(docInfo.tags.value) else []
  }

  /** `computeDeckName(docInfo)`: the value of the last deck tag, unless
      there is none or it is empty, when the document's best title names
      the deck. */
  function ComputeDeckName(docInfo: DocInfo, parse: ParseTypedTag, bestTitle: BestTitle): (r: string)
    ensures forall i :: 0 <= i < |TagList(docInfo)| && IsLastDeck(TagList(docInfo), i, parse) ==>
              r == if parse(TagList(docInfo)[i].labelText).value != "" then parse(TagList(docInfo)[i].labelText).value else bestTitle(docInfo)
    ensures (forall i :: 0 <= i < |TagList(docInfo)| ==> !IsDeck(TagList(docInfo)[i], parse)) ==> r == bestTitle(docInfo)
  {
    var tags := TagList(docInfo);
    var last := LastDeck(tags, parse);
    LastDeckUnique(tags, parse);
    if last.None? then bestTitle(docInfo)
    else
      var deckName := parse(tags[last.value].labelText).value;
      if deckName == "" then bestTitle(docInfo) else deckName
  }

  /** The note for one flashcard, of model "Basic". */
  function ToNoteDescriptor(fd: FlashcardDescriptor, parse: ParseTypedTag, bestTitle: BestTitle): (r: Result<NoteDescriptor>)
    ensures r.Err? <==> NoteFields(fd.flashcard.fields).Err?
    ensures r.Ok? ==> r.value == NoteDescriptor(fd.flashcard.guid, ComputeDeckName(fd.docMeta.docInfo, parse, bestTitle), "Basic",
                                                NoteFields(fd.flashcard.fields).value, NoteTags(fd.docMeta.docInfo))
  {
    var fields :- NoteFields(fd.flashcard.fields);
    Ok(NoteDescriptor(fd.flashcard.guid, ComputeDeckName(fd.docMeta.docInfo, parse, bestTitle), "Basic",
                      fields, NoteTags(fd.docMeta.docInfo)))
  }

  /** `toNoteDescriptors`: one note per flashcard, in order, or the first
      error. */
  function ToNoteDescriptors(fds: seq<FlashcardDescriptor>, parse: ParseTypedTag, bestTitle: BestTitle): (r: Result<seq<NoteDescriptor>>)
    ensures r.Err? <==> exists i :: 0 <= i < |fds| && ToNoteDescriptor(fds[i], parse, bestTitle).Err?
    ensures r.Ok? ==> |r.value| == |fds|
    ensures r.Ok? ==> forall i :: 0 <= i < |fds| ==> Ok(r.value[i]) == ToNoteDescriptor(fds[i], parse, bestTitle)
  {
    MapAll(fds, fd => ToNoteDescriptor(fd, parse, bestTitle))
  }

  /** `f` applied to every element in order, stopping at the first error. */
  function MapAll<T, U>(xs: seq<T>, f: T -> Result<U>): (r: Result<seq<U>>)
    ensures r.Err? <==> exists i :: 0 <= i < |xs| && f(xs[i]).Err?
    ensures r.Ok? ==> |r.value| == |xs|
    ensures r.Ok? ==> forall i :: 0 <= i < |xs| ==> Ok(r.value[i]) == f(xs[i])
    decreases |xs|
  {
    if |xs| == 0 then Ok([])
    else
      var y :- f(xs[0]);
      var rest :- MapAll(xs[1..], f);
      assert forall i :: 1 <= i < |xs| ==> xs[1..][i - 1] == xs[i];
      Ok([y] + rest)
  }

  /** `Array.from(Sets.toSet(xs))`: each value once, in the order of its
      first occurrence. */
  function Distinct<T(==,!new)>(xs: seq<T>): (r: seq<T>)
    ensures forall x :: x in r <==> x in xs
    ensures forall i, j :: 0 <= i < j < |r| ==> r[i] != r[j]
    ensures forall i, j :: 0 <= i < j < |r| ==> FirstIndex(xs, r[i]) < FirstIndex(xs, r[j])
    decreases |xs|
  {
    if |xs| == 0 then []
    else
      var init := xs[..|xs| - 1];
      var x := xs[|xs| - 1];
      assert xs == init + [x];
      var d := Distinct(init);
      forall y | y in d
        ensures FirstIndex(xs, y) == FirstIndex(init, y)
      {
        FirstIndexSnoc(init, x, y);
      }
      if x in d then d
      else
        FirstIndexSnoc(init, x, x);
        d + [x]
  }

  /** The decks of a set of notes: one per distinct deck name, in order of
      first use. */
  function DeckDescriptors(notes: seq<NoteDescriptor>): (decks: seq<DeckDescriptor>)
    ensures forall i :: 0 <= i < |notes| ==> DeckDescriptor(notes[i].deckName) in decks
    ensures forall i, j :: 0 <= i < j < |decks| ==> decks[i] != decks[j]
    ensures forall d :: d in decks ==> exists i :: 0 <= i < |notes| && d.name == notes[i].deckName
  {
    var used := seq(|notes|, i requires 0 <= i < |notes| => notes[i].deckName);
    var names := Distinct(used);
    var decks := seq(|names|, i requires 0 <= i < |names| => DeckDescriptor(names[i]));
    DecksOfNames(notes, used, names, decks);
    decks
  }

  lemma DecksOfNames(notes: seq<NoteDescriptor>, used: seq<string>, names: seq<string>, decks: seq<DeckDescriptor>)
    requires |used| == |notes| && forall i :: 0 <= i < |notes| ==> used[i] == notes[i].deckName
    requires forall x :: x in names <==> x in used
    requires |decks| == |names| && forall i :: 0 <= i < |names| ==> decks[i] == DeckDescriptor(names[i])
    ensures forall i :: 0 <= i < |notes| ==> DeckDescriptor(notes[i].deckName) in decks
    ensures forall d :: d in decks ==> exists i :: 0 <= i < |notes| && d.name == notes[i].deckName
  {
    forall i | 0 <= i < |notes|
      ensures DeckDescriptor(notes[i].deckName) in decks
    {
      assert used[i] in names;
      var j :| 0 <= j < |names| && names[j] == used[i];
      assert decks[j] == DeckDescriptor(notes[i].deckName);
    }
    forall d | d in decks
      ensures exists i :: 0 <= i < |notes| && d.name == notes[i].deckName
    {
      var j :| 0 <= j < |decks| && decks[j] == d;
      assert names[j] in used;
      var i :| 0 <= i < |used| && used[i] == names[j];
      assert d.name == notes[i].deckName;
    }
  }

  /** `sync`: the notes of every flashcard, and their decks. */
  function Sync(fds: seq<FlashcardDescriptor>, parse: ParseTypedTag, bestTitle: BestTitle): (r: Result<PendingSyncJob>)
    ensures r.Err? <==> ToNoteDescriptors(fds, parse, bestTitle).Err?
    ensures r.Ok? ==> r.value.notes == ToNoteDescriptors(fds, parse, bestTitle).value
    ensures r.Ok? ==> r.value.decks == DeckDescriptors(r.value.notes)
  {
    var notes :- ToNoteDescriptors(fds, parse, bestTitle);
    Ok(PendingSyncJob(DeckDescriptors(notes), notes))
  }

  /** Two flashcards of one document land in the same deck and carry the
      same tags. */
  lemma SameDocumentSameDeck(a: FlashcardDescriptor, b: FlashcardDescriptor, parse: ParseTypedTag, bestTitle: BestTitle)
    requires a.docMeta.docInfo == b.docMeta.docInfo
    requires ToNoteDescriptor(a, parse, bestTitle).Ok? && ToNoteDescriptor(b, parse, bestTitle).Ok?
    ensures ToNoteDescriptor(a, parse, bestTitle).value.deckName == ToNoteDescriptor(b, parse, bestTitle).value.deckName
    ensures ToNoteDescriptor(a, parse, bestTitle).value.tags == ToNoteDescriptor(b, parse, bestTitle).value.tags
  {
  }
}
