/**
 * The FastAPI copy of the converter (radreportconverter/fastapi_converter.py):
 * it takes the uploaded text as it is, with no empty check, and labels a
 * textarea without a bound label by the section name alone.
 */
module FastApiConverter {
  import opened Wrappers
  import opened Html
  import opened Strings
  import opened Extraction

  /** convert_html_to_json on the parsed tree of the uploaded content. */
  method ConvertHtmlToJson(doc: Node) returns (d: Document)
    ensures d == Extract(FastApi, doc)
    ensures forall s :: s in d.sections ==> |s.questions| >= 1
  {
    EverySectionHasQuestions(FastApi, doc);
    d := ExtractDocument(FastApi, doc);
  }

  /** A tree without sections or title converts to no sections and the default title. */
  lemma EmptyTreeDocument(doc: Node)
    requires forall x :: x in Descendants(doc) ==> !Matches(x, "section", AnyAttrs) && !Matches(x, "title", AnyAttrs)
    ensures Extract(FastApi, doc).sections == []
    ensures Extract(FastApi, doc).title == "Untitled Document"
  {
    SelectEmpty(Descendants(doc), "section", AnyAttrs);
  }

  /**
   * The FastAPI converter falls back to the section name as it is: with no
   * bound label that has text and an empty section name, the label is empty.
   */
  lemma FastApiTextareaLabelMayBeEmpty(sec: Node, taId: string)
    requires forall l :: l in Descendants(sec) && Matches(l, "label", AttrIs("for", taId)) ==> Strip(TextOf(l)) == ""
    ensures TextareaLabel(FastApi, sec, "", taId) == ""
  {
  }

  /** With a non-empty section name the two converters label textareas alike. */
  lemma TextareaLabelsAgree(sec: Node, name: string, taId: string)
    requires name != ""
    ensures TextareaLabel(FastApi, sec, name, taId) == TextareaLabel(Canonical, sec, name, taId)
  {
  }

  /**
   * The FastAPI copy builds the same record as the canonical converter
   * whenever every section has a non-empty name.
   */
  lemma FastApiAgreesWithCanonical(doc: Node)
    requires forall i :: 0 <= i < |FindAll(doc, "section", AnyAttrs)| ==>
      SectionName(FindAll(doc, "section", AnyAttrs)[i], i) != ""
    ensures Extract(FastApi, doc) == Extract(Canonical, doc)
  {
    var secs := FindAll(doc, "section", AnyAttrs);
    forall i | 0 <= i < |secs|
      ensures ExtractSection(FastApi, secs[i], i) == ExtractSection(Canonical, secs[i], i)
    {
      var name := SectionName(secs[i], i);
      assert TextareaQuestions(FastApi, secs[i], name) == TextareaQuestions(Canonical, secs[i], name);
    }
    assert Sections(FastApi, doc) == Sections(Canonical, doc);
  }

  /**
   * Where the two differ: a textarea without a label in a section whose
   * header is blank gets an empty label here and its id-derived label in
   * the canonical converter.
   */
  lemma BlankHeaderExample(header: Node, textarea: Node, sec: Node)
    requires header == Element("header", map[], [])
    requires textarea == Element("textarea", map["id" := "a_b"], [])
    requires sec == Element("section", map[], [header, textarea])
    ensures SectionName(sec, 0) == ""
    ensures TextareaLabel(FastApi, sec, "", "a_b") == ""
    ensures TextareaLabel(Canonical, sec, "", "a_b") == "A B"
  {
    BlankHeaderTree(header, textarea, sec);
    IdLabelExample();
  }

  lemma BlankHeaderTree(header: Node, textarea: Node, sec: Node)
    requires header == Element("header", map[], [])
    requires textarea == Element("textarea", map["id" := "a_b"], [])
    requires sec == Element("section", map[], [header, textarea])
    ensures Find(sec, "header", AnyAttrs) == Some(header)
    ensures Find(sec, "label", AttrIs("for", "a_b")).None?
    ensures GetAttr(sec, "data-section-name", "") == ""
  {
    assert Descendants(header) == [] && Descendants(textarea) == [];
    assert [textarea][1..] == [];
    assert DescendantsOfSeq([textarea]) == [textarea];
    assert [header, textarea][1..] == [textarea];
    assert DescendantsOfSeq([header, textarea]) == [header] + [] + [textarea];
    assert Descendants(sec) == [header, textarea];
    assert Matches(header, "header", AnyAttrs);
    assert IsFirstMatch(Descendants(sec), header, "header", AnyAttrs);
  }

  lemma IdLabelExample()
    ensures IdLabel("a_b") == "A B"
  {
    ReplaceAbsent("a_b", "Text", "");
    assert ReplaceAll("a_b", "_", " ") == "a b";
    assert TitleCase("a b") == "A B";
  }
}
