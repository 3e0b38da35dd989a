/**
 * The canonical converter (radreportconverter/converter.py): the entry
 * point with its empty-file check, and the structure report that counts
 * sections, textareas and labels and classifies the form.
 */
module RadConverter {
  import opened Wrappers
  import opened Html
  import opened Strings
  import opened Extraction

  /**
   * convert_html_to_json: content that is empty or only white space is
   * refused; anything else is converted from its parsed tree doc.
   */
  method ConvertHtmlToJson(content: string, doc: Node) returns (r: Result<Document, ConvertError>)
    ensures r.Failure? <==> IsBlank(content)
    ensures r.Success? ==> r.value == Extract(Canonical, doc)
  {
    StripSpec(content);
    if content == [] || |Strip(content)| == 0 {
      return Failure(EmptyContent);
    }
    var d := ExtractDocument(Canonical, doc);
    return Success(d);
  }

  /** The form_type value of the structure report. */
  datatype FormType = Unknown | TextareaBased | LabelBased | SectionOnly

  /** One entry of sections_details. */
  datatype SectionInfo = SectionInfo(name: string, textareas: nat, labels: nat)

  /** The report of analyze_html_structure. */
  datatype Analysis = Analysis(
    filename: string,
    title: string,
    sectionsCount: nat,
    textareasCount: nat,
    labelsCount: nat,
    formType: FormType,
    sectionsDetails: seq<SectionInfo>)

  /** The report's title: the first <title>'s text as it is (not stripped), or "No title". */
  function RawTitle(doc: Node): string
  {
    match Find(doc, "title", AnyAttrs)
    case None => "No title"
    case Some(t) => TextOf(t)
  }

  /**
   * The report's section name: data-section-name when non-empty, else the
   * first header's stripped text, else "Unnamed".
   */
  function DetailName(sec: Node): string
  {
    var explicit := GetAttr(sec, "data-section-name", "");
    if explicit != "" then explicit
    else match Find(sec, "header", AnyAttrs)
      case Some(h) => Strip(TextOf(h))
      case None => "Unnamed"
  }

  function Detail(sec: Node): SectionInfo
  {
    SectionInfo(DetailName(sec), |FindAll(sec, "textarea", AnyAttrs)|, |FindAll(sec, "label", AnyAttrs)|)
  }

  /** The document is classified by its first kind of field: textareas, else labels, else none. */
  function Classify(textareas: nat, labels: nat): FormType
  {
    if textareas > 0 then TextareaBased
    else if labels > 0 then LabelBased
    else SectionOnly
  }

  /** analyze_html_structure on the parsed tree of the file named filename. */
  method AnalyzeHtmlStructure(filename: string, doc: Node) returns (a: Analysis)
    ensures a.filename == filename && a.title == RawTitle(doc)
    ensures a.sectionsCount == |FindAll(doc, "section", AnyAttrs)|
    ensures a.textareasCount == |FindAll(doc, "textarea", AnyAttrs)|
    ensures a.labelsCount == |FindAll(doc, "label", AnyAttrs)|
    ensures a.formType == TextareaBased <==> a.textareasCount > 0
    ensures a.formType == LabelBased <==> a.textareasCount == 0 && a.labelsCount > 0
    ensures a.formType == SectionOnly <==> a.textareasCount == 0 && a.labelsCount == 0
    ensures a.formType != Unknown
    ensures |a.sectionsDetails| == a.sectionsCount
    ensures forall i :: 0 <= i < |a.sectionsDetails| ==>
      a.sectionsDetails[i] == Detail(FindAll(doc, "section", AnyAttrs)[i])
  {
    var titleTag := Find(doc, "title", AnyAttrs);
    var title := if titleTag.Some? then TextOf(titleTag.value) else "No title";
    var textareasCount := |FindAll(doc, "textarea", AnyAttrs)|;
    var labelsCount := |FindAll(doc, "label", AnyAttrs)|;
    var formType := Unknown;
    if textareasCount > 0 {
      formType := TextareaBased;
    } else if labelsCount > 0 {
      formType := LabelBased;
    } else {
      formType := SectionOnly;
    }
    var details := ReadDetails(FindAll(doc, "section", AnyAttrs));
    a := Analysis(filename, title, |FindAll(doc, "section", AnyAttrs)|, textareasCount, labelsCount, formType, details);
  }

  /** The sections_details loop. */
  method ReadDetails(secs: seq<Node>) returns (details: seq<SectionInfo>)
    ensures |details| == |secs|
    ensures forall i :: 0 <= i < |secs| ==> details[i] == Detail(secs[i])
  {
    details := [];
    for i := 0 to |secs|
      invariant |details| == i
      invariant forall k :: 0 <= k < i ==> details[k] == Detail(secs[k])
    {
      var section := secs[i];
      var sectionName := GetAttr(section, "data-section-name", "");
      if sectionName == "" {
        var header := Find(section, "header", AnyAttrs);
        sectionName := if header.Some? then Strip(TextOf(header.value)) else "Unnamed";
      }
      var textareasInSection := |FindAll(section, "textarea", AnyAttrs)|;
      var labelsInSection := |FindAll(section, "label", AnyAttrs)|;
      details := details + [SectionInfo(sectionName, textareasInSection, labelsInSection)];
    }
  }

  // ---- how the report relates to the conversion ----

  /**
   * The report names a section as the conversion does, except that a
   * section with neither a name attribute nor a header is "Unnamed" in the
   * report and "Section <n>" in the conversion.
   */
  lemma DetailNameAgreesWithSectionName(sec: Node, position: nat)
    ensures GetAttr(sec, "data-section-name", "") == "" && Find(sec, "header", AnyAttrs).None? ==>
      DetailName(sec) == "Unnamed" && SectionName(sec, position) == SynthesizedName(position)
    ensures GetAttr(sec, "data-section-name", "") != "" || Find(sec, "header", AnyAttrs).Some? ==>
      DetailName(sec) == SectionName(sec, position)
  {
  }

  /**
   * A section's counts predict how the conversion finds its fields: any
   * textarea means the textarea strategy; no textarea and no label means
   * the placeholder.
   */
  lemma DetailPredictsStrategy(sec: Node)
    ensures Detail(sec).textareas > 0 <==> StrategyOf(sec) == TextareaStrategy
    ensures Detail(sec).textareas == 0 && Detail(sec).labels == 0 ==> StrategyOf(sec) == SectionStrategy
    ensures StrategyOf(sec) == LabelStrategy ==> Detail(sec).textareas == 0 && Detail(sec).labels > 0
  {
    SelectEmpty(Descendants(sec), "textarea", AnyAttrs);
    SelectEmpty(Descendants(sec), "label", AnyAttrs);
  }

  /**
   * In a document the report calls section_only, every section of the
   * conversion consists of its placeholder question alone.
   */
  lemma SectionOnlyHasPlaceholders(doc: Node)
    requires Classify(|FindAll(doc, "textarea", AnyAttrs)|, |FindAll(doc, "label", AnyAttrs)|) == SectionOnly
    ensures forall s :: s in Extract(Canonical, doc).sections ==> s.questions == [Placeholder(s.name)]
  {
    var secs := FindAll(doc, "section", AnyAttrs);
    SelectMembers(Descendants(doc), "section", AnyAttrs);
    SelectEmpty(Descendants(doc), "textarea", AnyAttrs);
    SelectEmpty(Descendants(doc), "label", AnyAttrs);
    forall i | 0 <= i < |secs|
      ensures ExtractSection(Canonical, secs[i], i).questions == [Placeholder(SectionName(secs[i], i))]
    {
      var sec := secs[i];
      assert sec in secs;
      NoFieldsInside(doc, sec);
      SectionStrategyQuestions(Canonical, sec, SectionName(sec, i));
    }
  }

  /** A section of a document with no textarea and no label has none either. */
  lemma NoFieldsInside(doc: Node, sec: Node)
    requires sec in Descendants(doc)
    requires forall x :: x in Descendants(doc) ==> !Matches(x, "textarea", AnyAttrs)
    requires forall x :: x in Descendants(doc) ==> !Matches(x, "label", AnyAttrs)
    ensures StrategyOf(sec) == SectionStrategy
  {
    forall x | x in Descendants(sec)
      ensures !Matches(x, "textarea", AnyAttrs) && !Matches(x, "label", AnyAttrs)
    {
      DescendantsOfSeqClosed(doc.children, sec, x);
    }
  }

  /** An empty file and a file of spaces and newlines are both refused. */
  lemma BlankContentExamples()
    ensures IsBlank("") && IsBlank(" \n\t ")
    ensures !IsBlank("<html></html>")
  {
    assert !IsSpace("<html></html>"[0]);
  }
}
