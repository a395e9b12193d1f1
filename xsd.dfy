/** The derivation of a record schema from an XSD file, `parse_xsd` of
    mastr_export/xsd_parser.py. The ElementTree queries are replaced by their results: the
    document is what those queries find, and the rest is the per-field type rule, the loop
    that collects the field declarations, and the assembly of the `Spec`. */
module Xsd {
  import opened Wrappers
  import opened Schema

  /** `xs:restriction`: its `base` attribute and the `value` attribute of each of its
      `xs:enumeration` children, in document order. */
  datatype Restriction = Restriction(base: Option<string>, values: seq<Option<string>>)

  /** One `xs:element` child of the record's field list: its `name`, its `type` attribute and
      the `xs:simpleType/xs:restriction` it defines inline, if any. */
  datatype FieldElement = FieldElement(name: string, typeAttr: Option<string>, restriction: Option<Restriction>)

  /** What the queries of `parse_xsd` find in the document: the top element's name, the name
      of the element nested in its sequence (the record), and the field elements of the
      record's `xs:sequence` and of its `xs:choice`, each None when the query finds nothing. */
  datatype XsdDocument = XsdDocument(
    top: Option<string>,
    record: Option<string>,
    sequence: Option<seq<FieldElement>>,
    choice: Option<seq<FieldElement>>)

  /** The exceptions `parse_xsd` raises: attribute lookups on a query that found nothing, a
      field whose type is None, the assertion that there is a field, and the `Spec`'s own. */
  datatype XsdError =
    | NoTopElement
    | NoRecordElement
    | NoFieldList
    | NoFieldType(field: string)
    | NoFields
    | BadSpec(cause: SpecError)

  /** `str.removeprefix("xs:")`: one leading `xs:` goes, nothing else. */
  function StripXs(s: string): (r: string)
    ensures "xs:" <= s ==> s == "xs:" + r
    ensures !("xs:" <= s) ==> r == s
  {
    if "xs:" <= s then s[3..] else s
  }

  /** The enumeration values, as a set, are exactly "0" and "1". */
  predicate IsZeroOne(values: seq<Option<string>>) {
    (set v | v in values) == {Some("0"), Some("1")}
  }

  /** The type of one field: the `type` attribute; failing that, `xs:boolean` for an inline
      restriction to exactly "0" and "1", else the restriction's `base`; then one `xs:`
      prefix removed. None is the None that `removeprefix` is then called on. */
  function FieldType(f: FieldElement): (r: Option<string>)
    ensures r.None? <==> f.typeAttr.None? && (f.restriction.None? ||
                           (!IsZeroOne(f.restriction.value.values) && f.restriction.value.base.None?))
    ensures f.typeAttr.Some? ==> r == Some(StripXs(f.typeAttr.value))
    ensures f.typeAttr.None? && f.restriction.Some? && IsZeroOne(f.restriction.value.values) ==> r == Some("boolean")
  {
    var declared :=
      if f.typeAttr.Some? then f.typeAttr
      else if f.restriction.None? then None
      else if IsZeroOne(f.restriction.value.values) then Some("xs:boolean")
      else f.restriction.value.base;
    match declared
    case None => None
    case Some(t) => Some(StripXs(t))
  }

  /** The declaration `parse_xsd` collects for one field: a name and a tag, no index and no
      reference. */
  function DeclOf(f: FieldElement): (r: FieldDecl) {
    FieldDecl(f.name, None, FieldType(f), None)
  }

  /** `elems[k]` is the first field element whose type is None. */
  predicate FirstUntyped(elems: seq<FieldElement>, k: int) {
    && 0 <= k < |elems|
    && FieldType(elems[k]).None?
    && forall j :: 0 <= j < k ==> FieldType(elems[j]).Some?
  }

  /** The loop of `parse_xsd` over the field elements: one declaration per element, in
      document order; the first element without a type raises. */
  method DeriveFields(elems: seq<FieldElement>) returns (r: Result<seq<FieldDecl>, XsdError>)
    ensures r.Ok? <==> forall i :: 0 <= i < |elems| ==> FieldType(elems[i]).Some?
    ensures r.Ok? ==> |r.value| == |elems| && forall i :: 0 <= i < |elems| ==> r.value[i] == DeclOf(elems[i])
    ensures r.Err? ==> exists k :: FirstUntyped(elems, k) && r.error == NoFieldType(elems[k].name)
  {
    var decls: seq<FieldDecl> := [];
    var i := 0;
    while i < |elems|
      invariant 0 <= i <= |elems|
      invariant |decls| == i
      invariant forall j :: 0 <= j < i ==> FieldType(elems[j]).Some? && decls[j] == DeclOf(elems[j])
    {
      var t := FieldType(elems[i]);
      if t.None? {
        assert FirstUntyped(elems, i);
        return Err(NoFieldType(elems[i].name));
      }
      decls := decls + [FieldDecl(elems[i].name, None, t, None)];
      i := i + 1;
    }
    r := Ok(decls);
  }

  /** The record's fields: its `xs:sequence`, or its `xs:choice` when it has no sequence. */
  function FieldList(doc: XsdDocument): (r: Option<seq<FieldElement>>) {
    if doc.sequence.Some? then doc.sequence else doc.choice
  }

  /** Every field has a type, and every type is one the `Spec` knows. */
  predicate AllTyped(elems: seq<FieldElement>) {
    forall i :: 0 <= i < |elems| ==> FieldType(elems[i]).Some? && ParseType(FieldType(elems[i]).value).Some?
  }

  /** `elems[k]` is the first field element whose type the `Spec` does not support. */
  predicate FirstUnsupported(elems: seq<FieldElement>, k: int) {
    && 0 <= k < |elems|
    && FieldType(elems[k]).Some? && ParseType(FieldType(elems[k]).value).None?
    && forall j :: 0 <= j < k ==> FieldType(elems[j]).Some? && ParseType(FieldType(elems[j]).value).Some?
  }

  /** The declarations collected for `elems`, in order. */
  function Decls(elems: seq<FieldElement>): (r: seq<FieldDecl>)
    ensures |r| == |elems| && forall i :: 0 <= i < |elems| ==> r[i] == DeclOf(elems[i])
  {
    seq(|elems|, i requires 0 <= i < |elems| => DeclOf(elems[i]))
  }

  /** What the `Spec` makes of the declarations once every field has a type: it accepts them
      exactly when every type is supported, rejects an unsupported one by name, and each field
      it keeps is an untyped-index, reference-free field of one of the elements. */
  lemma SpecFromDecls(root: string, element: string, elems: seq<FieldElement>)
    requires forall i :: 0 <= i < |elems| ==> FieldType(elems[i]).Some?
    ensures var built := MakeSpec(root, element, Decls(elems), None, Some(false));
            && (built.Ok? <==> AllTyped(elems))
            && (built.Err? ==> exists k :: FirstUnsupported(elems, k) &&
                                          built.error == UnknownType(elems[k].name, FieldType(elems[k]).value))
            && (built.Ok? ==> forall g :: g in built.value.fields ==>
                                !g.index && g.references == None &&
                                exists i :: 0 <= i < |elems| && elems[i].name == g.name &&
                                            TypeName(g.xsd) == FieldType(elems[i]).value)
  {
    var decls := Decls(elems);
    var built := MakeSpec(root, element, decls, None, Some(false));
    if built.Err? {
      SpecRejects(root, element, elems);
    } else {
      SpecFieldsFromElements(root, element, elems);
    }
  }

  lemma SpecRejects(root: string, element: string, elems: seq<FieldElement>)
    requires forall i :: 0 <= i < |elems| ==> FieldType(elems[i]).Some?
    requires MakeSpec(root, element, Decls(elems), None, Some(false)).Err?
    ensures exists k :: FirstUnsupported(elems, k) &&
              MakeSpec(root, element, Decls(elems), None, Some(false)).error == UnknownType(elems[k].name, FieldType(elems[k]).value)
  {
    var decls := Decls(elems);
    var built := MakeSpec(root, element, decls, None, Some(false));
    var k :| FirstFailure(decls, k) && built.error == MakeField(decls[k]).error;
    assert FirstUnsupported(elems, k);
  }

  lemma SpecFieldsFromElements(root: string, element: string, elems: seq<FieldElement>)
    requires forall i :: 0 <= i < |elems| ==> FieldType(elems[i]).Some?
    requires MakeSpec(root, element, Decls(elems), None, Some(false)).Ok?
    ensures forall g :: g in MakeSpec(root, element, Decls(elems), None, Some(false)).value.fields ==>
              !g.index && g.references == None &&
              exists i :: 0 <= i < |elems| && elems[i].name == g.name && TypeName(g.xsd) == FieldType(elems[i]).value
  {
    var decls := Decls(elems);
    var built := MakeSpec(root, element, decls, None, Some(false));
    var fs := MakeFields(decls).value;
    forall g | g in built.value.fields
      ensures !g.index && g.references == None
      ensures exists i :: 0 <= i < |elems| && elems[i].name == g.name && TypeName(g.xsd) == FieldType(elems[i]).value
    {
      LastNamedFound(fs, g.name);
      var i :| 0 <= i < |fs| && fs[i] == g && fs[i].name == g.name;
      assert MakeField(decls[i]).value == g;
    }
  }

  /** `parse_xsd`: the spec of the document's records, with no primary key and
      `without_rowid` off. */
  method ParseXsd(doc: XsdDocument) returns (r: Result<Spec, XsdError>)
    ensures doc.top.None? ==> r == Err(NoTopElement)
    ensures doc.top.Some? && doc.record.None? ==> r == Err(NoRecordElement)
    ensures doc.top.Some? && doc.record.Some? && FieldList(doc).None? ==> r == Err(NoFieldList)
    ensures r.Ok? <==> doc.top.Some? && doc.record.Some? && FieldList(doc).Some? &&
                       |FieldList(doc).value| > 0 && AllTyped(FieldList(doc).value)
    ensures r.Err? && doc.top.Some? && doc.record.Some? && FieldList(doc).Some? ==>
              var elems := FieldList(doc).value;
              if exists k :: FirstUntyped(elems, k) then
                exists k :: FirstUntyped(elems, k) && r.error == NoFieldType(elems[k].name)
              else if |elems| == 0 then r.error == NoFields
              else exists k :: FirstUnsupported(elems, k) &&
                               r.error == BadSpec(UnknownType(elems[k].name, FieldType(elems[k]).value))
    ensures r.Ok? ==> && r.value.root == doc.top.value && r.value.element == doc.record.value
                      && r.value.primary == None && !r.value.withoutRowid
    ensures r.Ok? ==> var elems := FieldList(doc).value;
                      && |r.value.fields| > 0
                      && Names(r.value.fields) == Dedup(DeclNames(Decls(elems)))
                      && forall g :: g in r.value.fields ==>
                           !g.index && g.references == None &&
                           exists i :: 0 <= i < |elems| && elems[i].name == g.name && TypeName(g.xsd) == FieldType(elems[i]).value
    ensures r.Ok? ==> MakeSpec(doc.top.value, doc.record.value, Decls(FieldList(doc).value), None, Some(false)) == Ok(r.value)
  {
    if doc.top.None? {
      return Err(NoTopElement);
    }
    if doc.record.None? {
      return Err(NoRecordElement);
    }
    var elems := doc.sequence;
    if elems.None? {
      elems := doc.choice;
    }
    if elems.None? {
      return Err(NoFieldList);
    }
    var derived := DeriveFields(elems.value);
    if derived.Err? {
      return Err(derived.error);
    }
    var decls := derived.value;
    assert decls == Decls(elems.value);
    assert forall k :: !FirstUntyped(elems.value, k);
    if |decls| == 0 {
      return Err(NoFields);
    }
    var built := MakeSpec(doc.top.value, doc.record.value, decls, None, Some(false));
    SpecFromDecls(doc.top.value, doc.record.value, elems.value);
    if built.Err? {
      return Err(BadSpec(built.error));
    }
    DeclNamesLength(decls);
    r := Ok(built.value);
  }

  lemma DeclNamesLength(decls: seq<FieldDecl>)
    requires |decls| > 0
    ensures |Dedup(DeclNames(decls))| > 0
  {
    DedupMembers(DeclNames(decls));
    assert DeclNames(decls)[0] in Dedup(DeclNames(decls));
  }

  // ------------------------------------------------------------------ the type rule

  /** An explicit `type` wins over any inline restriction. */
  lemma ExplicitTypeWins(f: FieldElement)
    requires f.typeAttr.Some?
    ensures FieldType(f) == Some(StripXs(f.typeAttr.value))
    ensures "xs:" <= f.typeAttr.value ==> "xs:" + FieldType(f).value == f.typeAttr.value
  {
  }

  /** Without a `type`, an inline restriction to exactly "0" and "1" makes a boolean field,
      whatever its base, and in whatever order or repetition the values come. */
  lemma ZeroOneIsBoolean(name: string, base: Option<string>, values: seq<Option<string>>)
    requires IsZeroOne(values)
    ensures MakeField(DeclOf(FieldElement(name, None, Some(Restriction(base, values))))) ==
            Ok(Field(name, false, Boolean, None))
  {
    assert StripXs("xs:boolean") == "boolean";
  }

  /** The boolean rule, for any list of enumeration values: both "0" and "1" occur, and
      nothing else does; how often and in which order does not matter. */
  lemma ZeroOneExactly(values: seq<Option<string>>)
    ensures IsZeroOne(values) <==>
              && Some("0") in values && Some("1") in values
              && forall v :: v in values ==> v == Some("0") || v == Some("1")
  {
    var found := set v | v in values;
    if IsZeroOne(values) {
      assert Some("0") in found && Some("1") in found;
      forall v | v in values
        ensures v == Some("0") || v == Some("1")
      {
        assert v in found;
      }
    }
    if Some("0") in values && Some("1") in values && forall v :: v in values ==> v == Some("0") || v == Some("1") {
      assert found == {Some("0"), Some("1")};
    }
  }

  /** The set comparison ignores order and repeats: two lists that are sets of "0" and "1",
      and two that are not. */
  lemma ZeroOneAnyOrder()
    ensures IsZeroOne([Some("1"), Some("0")])
    ensures IsZeroOne([Some("0"), Some("1"), Some("1")])
    ensures !IsZeroOne([Some("0")])
    ensures !IsZeroOne([Some("0"), Some("1"), Some("2")])
  {
    assert Some("1") in [Some("1"), Some("0")];
    assert Some("0") in [Some("0"), Some("1"), Some("1")];
    assert Some("1") !in [Some("0")];
    var three := [Some("0"), Some("1"), Some("2")];
    var found := set v | v in three;
    assert three[2] in found;
    assert three[2] !in {Some("0"), Some("1")} by {
      assert "2"[0] != "0"[0] && "2"[0] != "1"[0];
    }
    assert !IsZeroOne(three);
  }

  /** Otherwise the restriction's base is the type, with `xs:` removed. */
  lemma BaseOtherwise(f: FieldElement)
    requires f.typeAttr.None? && f.restriction.Some? && !IsZeroOne(f.restriction.value.values)
    ensures f.restriction.value.base.None? ==> FieldType(f).None?
    ensures f.restriction.value.base.Some? ==> FieldType(f) == Some(StripXs(f.restriction.value.base.value))
  {
  }

  /** A field naming one of the six supported XSD types, written with the `xs:` prefix,
      becomes a field of exactly that type. */
  lemma PrefixedTypeRoundTrip(name: string, t: XsdType, r: Option<Restriction>)
    ensures MakeField(DeclOf(FieldElement(name, Some("xs:" + TypeName(t)), r))) == Ok(Field(name, false, t, None))
  {
    assert StripXs("xs:" + TypeName(t)) == TypeName(t);
    ParseTypeName(t);
  }

  /** Only one prefix is removed: `xs:xs:string` is not a supported type. */
  lemma OnePrefixOnly(name: string)
    ensures FieldType(FieldElement(name, Some("xs:xs:string"), None)) == Some("xs:string")
    ensures MakeField(DeclOf(FieldElement(name, Some("xs:xs:string"), None))).Err?
  {
    assert "xs:" <= "xs:xs:string";
    assert "xs:xs:string"[3..] == "xs:string";
    assert ParseType("xs:string").None? by {
      assert TypeName(String) == "string";
    }
  }

  /** A restriction over `xs:short`, as in the document the source's comment shows, derives
      the type `short`, which the `Spec` rejects. */
  lemma ShortIsRejected(name: string)
    ensures var f := FieldElement(name, None, Some(Restriction(Some("xs:short"), [Some("2954"), Some("2955"), Some("3075")])));
            FieldType(f) == Some("short") && MakeField(DeclOf(f)) == Err(UnknownType(name, "short"))
  {
    var values := [Some("2954"), Some("2955"), Some("3075")];
    assert Some("0") !in values;
    assert "xs:" <= "xs:short";
    assert "xs:short"[3..] == "short";
  }
}
