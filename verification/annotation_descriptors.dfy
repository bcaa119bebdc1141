/** `AnnotationDescriptors.fromElement`, over the element's data attributes
    as the string map `Attributes.dataToStringMap` returns (camel-cased
    names without the `data-` prefix). `AnnotationTypes.fromString` is a
    parameter. */
module AnnotationDescriptors {

  import opened Wrappers
  import opened Dicts
  import opened JsStrings

  /** `new AnnotationDescriptor(type, docFingerprint, id, pageNum)`; an
      attribute the element lacks is `None`, and a `pageNum` that is NaN is
      `None`. */
  datatype AnnotationDescriptor<A> =
    AnnotationDescriptor(annotationType: A, docFingerprint: Option<string>, id: Option<string>, pageNum: Option<int>)

  /** The type attribute as `AnnotationTypes.fromString` receives it: the
      first '-' replaced by '_', then upper-cased. */
  function TypeName(attr: string): string {
    ToUpperCase(ReplaceFirst(attr, "-", "_"))
  }

  /** `parseInt` of an attribute; a missing one is `undefined`, which
      `parseInt` reads as the string "undefined". */
  function ParseAttribute(attr: Option<string>): Option<int> {
    ParseInt(attr.GetOr("undefined"))
  }

  function FromElement<A>(attrs: Dict<string, string>, fromString: string -> A): (r: Option<AnnotationDescriptor<A>>)
    ensures r.None? <==> Get(attrs, "annotationType") in {None, Some("")}
    ensures r.Some? ==> r.value.annotationType == fromString(TypeName(Get(attrs, "annotationType").value))
    ensures r.Some? ==> r.value.id == Get(attrs, "annotationId") && r.value.docFingerprint == Get(attrs, "annotationDocFingerprint")
    ensures r.Some? ==> r.value.pageNum == ParseAttribute(Get(attrs, "annotationPageNum"))
  {
    match Get(attrs, "annotationType")
    case None => None
    case Some(t) =>
      if t == "" then None
      else
        var annotationType := fromString(TypeName(t));
        var id := Get(attrs, "annotationId");
        var docFingerprint := Get(attrs, "annotationDocFingerprint");
        var pageNum := ParseAttribute(Get(attrs, "annotationPageNum"));
        Some(AnnotationDescriptor(annotationType, docFingerprint, id, pageNum))
  }

  /** The data attributes an element carries for an annotation. */
  function DataAttributes(typeAttr: string, id: string, docFingerprint: string, pageNum: int): Dict<string, string> {
    Cons("annotationType", typeAttr, Cons("annotationId", id,
      Cons("annotationDocFingerprint", docFingerprint, Cons("annotationPageNum", ToDecimal(pageNum), []))))
  }

  /** Reading back the attributes written for an annotation yields its
      fingerprint, id and page number, and its type through `fromString`. */
  lemma FromElementOfDataAttributes<A>(typeAttr: string, id: string, docFingerprint: string, pageNum: int,
                                       fromString: string -> A)
    requires typeAttr != ""
    ensures FromElement(DataAttributes(typeAttr, id, docFingerprint, pageNum), fromString) ==
              Some(AnnotationDescriptor(fromString(TypeName(typeAttr)), Some(docFingerprint), Some(id), Some(pageNum)))
  {
    var attrs := DataAttributes(typeAttr, id, docFingerprint, pageNum);
    assert Get(attrs, "annotationType") == Some(typeAttr);
    assert Get(attrs, "annotationId") == Some(id);
    assert Get(attrs, "annotationDocFingerprint") == Some(docFingerprint);
    assert Get(attrs, "annotationPageNum") == Some(ToDecimal(pageNum));
    assert ParseAttribute(Some(ToDecimal(pageNum))) == Some(pageNum) by {
      ParseIntOfDecimal(pageNum, "");
      assert ToDecimal(pageNum) + "" == ToDecimal(pageNum);
    }
  }

  /** Only the first '-' of the type attribute becomes '_'. */
  lemma OnlyFirstDashReplaced(a: string, b: string)
    requires '-' !in a
    ensures ReplaceFirst(a + "-" + b, "-", "_") == a + "_" + b
  {
    var s := a + "-" + b;
    assert OccursAt(s, "-", |a|) by {
      assert s[|a|..|a| + 1] == "-";
    }
    forall i: nat | i < |a|
      ensures !OccursAt(s, "-", i)
    {
      assert s[i] == a[i];
    }
    assert IndexOf(s, "-") == |a|;
    assert s[..|a|] == a;
    assert s[|a| + 1..] == b;
  }
}
