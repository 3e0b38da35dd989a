/**
 * The record the converters build from a parsed report template and the
 * passes that build it: metadata, sections, the questions of each section,
 * and the title. The repository holds three copies of this extractor that
 * differ only in the question pass; Flavor says which copy is meant.
 */
module Extraction {
  import opened Wrappers
  import opened Html
  import opened Strings

  /**
   * Canonical: radreportconverter/converter.py (textareas, then labels,
   * then a placeholder; an id-derived label as the last resort).
   * FastApi: radreportconverter/fastapi_converter.py (the same without the
   * id-derived label). Legacy: converter.py (one question per label).
   */
  datatype Flavor = Canonical | FastApi | Legacy

  /** One question; labelText is the "label" key; fieldType and elementId are None where the output dict has no such key. */
  datatype Question = Question(id: nat, labelText: string, answer: string, fieldType: Option<string>, elementId: Option<string>)

  datatype Section = Section(name: string, questions: seq<Question>)

  /** One key of the metadata dict; None is JSON null. */
  datatype MetaEntry = MetaEntry(key: string, value: Option<string>)

  /** The output dict; metadata lists its keys in insertion order, the order json.dump writes them. */
  datatype Document = Document(title: string, metadata: seq<MetaEntry>, sections: seq<Section>)

  /** The ValueError raised for content that is empty or only white space. */
  datatype ConvertError = EmptyContent

  /** The output keys of the metadata and the meta names they are read from, in output order. */
  const MetaFields: seq<(string, string)> := [
    ("identifier", "dcterms.identifier"),
    ("language", "dcterms.language"),
    ("publisher", "dcterms.publisher"),
    ("date", "dcterms.date"),
    ("creator", "dcterms.creator")
  ]

  // ---- metadata pass ----

  /** The content of the first <meta name=metaName> of the document if that content is non-empty, else None. */
  function MetaValue(doc: Node, metaName: string): (v: Option<string>)
    ensures v.Some? ==> v.value != ""
  {
    match Find(doc, "meta", AttrIs("name", metaName))
    case None => None
    case Some(m) => if GetAttr(m, "content", "") != "" then Some(GetAttr(m, "content", "")) else None
  }

  function Metadata(doc: Node): seq<MetaEntry>
  {
    seq(|MetaFields|, k requires 0 <= k < |MetaFields| => MetaEntry(MetaFields[k].0, MetaValue(doc, MetaFields[k].1)))
  }

  // ---- section names ----

  /** "Section N", N the 1-based position of the section. */
  function SynthesizedName(position: nat): string
  {
    "Section " + NatToString(position + 1)
  }

  /**
   * A section's name: its data-section-name if non-empty, else the stripped
   * text of its first <header> (possibly empty), else SynthesizedName.
   */
  function SectionName(sec: Node, position: nat): string
  {
    var explicit := GetAttr(sec, "data-section-name", "");
    if explicit != "" then explicit
    else match Find(sec, "header", AnyAttrs)
      case Some(header) => Strip(TextOf(header))
      case None => SynthesizedName(position)
  }

  // ---- questions ----

  /** A textarea id made readable: "Text" removed, "_" turned into " ", then title-cased. */
  function IdLabel(id: string): string
  {
    TitleCase(ReplaceAll(ReplaceAll(id, "Text", ""), "_", " "))
  }

  /**
   * The label of the textarea with id taId: the stripped text of the first
   * <label for=taId> in the section when that is non-empty, else the
   * section name; the canonical converter uses IdLabel when the section
   * name is empty too.
   */
  function TextareaLabel(flavor: Flavor, sec: Node, sectionName: string, taId: string): string
  {
    var bound := Find(sec, "label", AttrIs("for", taId));
    if bound.Some? && Strip(TextOf(bound.value)) != "" then Strip(TextOf(bound.value))
    else if flavor == Canonical && sectionName == "" then IdLabel(taId)
    else sectionName
  }

  function TextareaQuestion(flavor: Flavor, sec: Node, sectionName: string, ta: Node, id: nat): Question
  {
    var taId := GetAttr(ta, "id", "");
    Question(id, TextareaLabel(flavor, sec, sectionName, taId), Strip(TextOf(ta)),
             Some(GetAttr(ta, "data-field-type", "TEXTAREA")), Some(taId))
  }

  function TextareaQuestions(flavor: Flavor, sec: Node, sectionName: string): seq<Question>
  {
    var tas := FindAll(sec, "textarea", AnyAttrs);
    seq(|tas|, k requires 0 <= k < |tas| => TextareaQuestion(flavor, sec, sectionName, tas[k], k))
  }

  /** The labels whose stripped text is non-empty, in order. */
  function NonEmptyLabels(labels: seq<Node>): (r: seq<Node>)
    ensures |r| <= |labels|
  {
    if labels == [] then []
    else (if Strip(TextOf(labels[0])) != "" then [labels[0]] else []) + NonEmptyLabels(labels[1..])
  }

  /** NonEmptyLabels keeps exactly the labels with text. */
  lemma {:induction false} NonEmptyLabelsMembers(labels: seq<Node>)
    ensures forall x :: x in NonEmptyLabels(labels) <==> x in labels && Strip(TextOf(x)) != ""
  {
    if labels != [] {
      NonEmptyLabelsMembers(labels[1..]);
      assert labels == [labels[0]] + labels[1..];
    }
  }

  /** No label is kept exactly when every label's text is blank. */
  lemma NonEmptyLabelsEmpty(labels: seq<Node>)
    ensures NonEmptyLabels(labels) == [] <==> forall x :: x in labels ==> Strip(TextOf(x)) == ""
  {
    NonEmptyLabelsMembers(labels);
    var r := NonEmptyLabels(labels);
    if r != [] {
      assert r[0] in r;
    }
  }

  lemma {:induction false} NonEmptyLabelsSnoc(labels: seq<Node>, x: Node)
    ensures NonEmptyLabels(labels + [x]) == NonEmptyLabels(labels) + (if Strip(TextOf(x)) != "" then [x] else [])
  {
    if labels == [] {
      assert labels + [x] == [x];
    } else {
      assert (labels + [x])[1..] == labels[1..] + [x];
      NonEmptyLabelsSnoc(labels[1..], x);
    }
  }

  function LabelQuestion(lbl: Node, id: nat): Question
  {
    Question(id, Strip(TextOf(lbl)), "", Some("LABEL"), None)
  }

  function LabelQuestions(kept: seq<Node>): seq<Question>
  {
    seq(|kept|, k requires 0 <= k < |kept| => LabelQuestion(kept[k], k))
  }

  lemma LabelQuestionsSnoc(kept: seq<Node>, x: Node)
    ensures LabelQuestions(kept + [x]) == LabelQuestions(kept) + [LabelQuestion(x, |kept|)]
  {
    var l, r := LabelQuestions(kept + [x]), LabelQuestions(kept) + [LabelQuestion(x, |kept|)];
    assert |l| == |r|;
    forall k | 0 <= k < |l| ensures l[k] == r[k] {
      if k < |kept| { assert (kept + [x])[k] == kept[k]; }
    }
  }

  /** The one question of a section in which no field was found. */
  function Placeholder(sectionName: string): Question
  {
    Question(0, sectionName, "", Some("SECTION"), None)
  }

  function LegacyQuestion(lbl: Node, id: nat): Question
  {
    Question(id, Strip(TextOf(lbl)), "", None, None)
  }

  function LegacyQuestions(labels: seq<Node>): seq<Question>
  {
    seq(|labels|, k requires 0 <= k < |labels| => LegacyQuestion(labels[k], k))
  }

  /** The questions of a section, as each converter builds them. */
  function Questions(flavor: Flavor, sec: Node, sectionName: string): seq<Question>
  {
    var labels := FindAll(sec, "label", AnyAttrs);
    if flavor == Legacy then LegacyQuestions(labels)
    else
      var found :=
        if FindAll(sec, "textarea", AnyAttrs) != [] then TextareaQuestions(flavor, sec, sectionName)
        else LabelQuestions(NonEmptyLabels(labels));
      if found == [] then [Placeholder(sectionName)] else found
  }

  function ExtractSection(flavor: Flavor, sec: Node, position: nat): Section
  {
    var name := SectionName(sec, position);
    Section(name, Questions(flavor, sec, name))
  }

  /** One section per <section> element of the document, in document order. */
  function Sections(flavor: Flavor, doc: Node): seq<Section>
  {
    SectionsOf(flavor, FindAll(doc, "section", AnyAttrs))
  }

  function SectionsOf(flavor: Flavor, secs: seq<Node>): seq<Section>
  {
    seq(|secs|, i requires 0 <= i < |secs| => ExtractSection(flavor, secs[i], i))
  }

  /** The stripped text of the first <title>, or "Untitled Document". */
  function Title(doc: Node): string
  {
    match Find(doc, "title", AnyAttrs)
    case None => "Untitled Document"
    case Some(t) => Strip(TextOf(t))
  }

  function Extract(flavor: Flavor, doc: Node): Document
  {
    Document(Title(doc), Metadata(doc), Sections(flavor, doc))
  }

  // ---- the passes, as the converters run them ----

  /** The metadata loop: one entry per fixed key, in order. */
  method ReadMetadata(doc: Node) returns (metadata: seq<MetaEntry>)
    ensures metadata == Metadata(doc)
  {
    metadata := [];
    for k := 0 to |MetaFields|
      invariant |metadata| == k
      invariant forall j :: 0 <= j < k ==> metadata[j] == Metadata(doc)[j]
    {
      var value := ReadMetaValue(doc, MetaFields[k].1);
      metadata := metadata + [MetaEntry(MetaFields[k].0, value)];
    }
  }

  /** The body of the metadata loop for one meta name. */
  method ReadMetaValue(doc: Node, metaName: string) returns (value: Option<string>)
    ensures value == MetaValue(doc, metaName)
  {
    var metaTag := Find(doc, "meta", AttrIs("name", metaName));
    if metaTag.Some? && GetAttr(metaTag.value, "content", "") != "" {
      value := Some(GetAttr(metaTag.value, "content", ""));
    } else {
      value := None;
    }
  }

  /** The textarea strategy: one question per textarea, ids counted from 0. */
  method ReadTextareaQuestions(flavor: Flavor, sec: Node, sectionName: string) returns (qs: seq<Question>)
    ensures qs == TextareaQuestions(flavor, sec, sectionName)
  {
    var textareas := FindAll(sec, "textarea", AnyAttrs);
    qs := [];
    var questionId := 0;
    for i := 0 to |textareas|
      invariant questionId == |qs| == i
      invariant forall k :: 0 <= k < i ==> qs[k] == TextareaQuestion(flavor, sec, sectionName, textareas[k], k)
    {
      var textarea := textareas[i];
      var textareaId := GetAttr(textarea, "id", "");
      var labelElement := Find(sec, "label", AttrIs("for", textareaId));
      var labelText;
      if labelElement.Some? && Strip(TextOf(labelElement.value)) != "" {
        labelText := Strip(TextOf(labelElement.value));
      } else if flavor == Canonical {
        labelText := if sectionName != "" then sectionName else IdLabel(textareaId);
      } else {
        labelText := sectionName;
      }
      var defaultContent := if TextOf(textarea) != "" then Strip(TextOf(textarea)) else "";
      var question := Question(questionId, labelText, defaultContent,
                               Some(GetAttr(textarea, "data-field-type", "TEXTAREA")), Some(textareaId));
      qs := qs + [question];
      questionId := questionId + 1;
    }
  }

  /** The label strategy: one LABEL question per label with non-empty text. */
  method ReadLabelQuestions(labels: seq<Node>) returns (qs: seq<Question>)
    ensures qs == LabelQuestions(NonEmptyLabels(labels))
  {
    qs := [];
    var questionId := 0;
    for i := 0 to |labels|
      invariant questionId == |qs|
      invariant qs == LabelQuestions(NonEmptyLabels(labels[..i]))
    {
      var lbl := labels[i];
      ghost var kept := NonEmptyLabels(labels[..i]);
      NonEmptyLabelsSnoc(labels[..i], lbl);
      assert labels[..i + 1] == labels[..i] + [lbl];
      if Strip(TextOf(lbl)) != "" {
        LabelQuestionsSnoc(kept, lbl);
        qs := qs + [Question(questionId, Strip(TextOf(lbl)), "", Some("LABEL"), None)];
        questionId := questionId + 1;
      }
    }
    assert labels[..|labels|] == labels;
  }

  /** The label-only loop of converter.py: one question per label, whatever its text. */
  method ReadLegacyQuestions(sec: Node) returns (qs: seq<Question>)
    ensures qs == LegacyQuestions(FindAll(sec, "label", AnyAttrs))
  {
    var labels := FindAll(sec, "label", AnyAttrs);
    qs := [];
    var questionId := 0;
    for i := 0 to |labels|
      invariant questionId == |qs| == i
      invariant forall k :: 0 <= k < i ==> qs[k] == LegacyQuestion(labels[k], k)
    {
      qs := qs + [Question(questionId, Strip(TextOf(labels[i])), "", None, None)];
      questionId := questionId + 1;
    }
  }

  /** The field sub-pass of one section. */
  method ReadQuestions(flavor: Flavor, sec: Node, sectionName: string) returns (qs: seq<Question>)
    ensures qs == Questions(flavor, sec, sectionName)
  {
    if flavor == Legacy {
      qs := ReadLegacyQuestions(sec);
      return;
    }
    var textareas := FindAll(sec, "textarea", AnyAttrs);
    if textareas != [] {
      qs := ReadTextareaQuestions(flavor, sec, sectionName);
    } else {
      qs := ReadLabelQuestions(FindAll(sec, "label", AnyAttrs));
    }
    if qs == [] {
      qs := [Placeholder(sectionName)];
    }
  }

  /** The section loop: a name for each section, then its questions. */
  method ReadSections(flavor: Flavor, doc: Node) returns (sections: seq<Section>)
    ensures sections == Sections(flavor, doc)
  {
    sections := ReadSectionList(flavor, FindAll(doc, "section", AnyAttrs));
  }

  method ReadSectionList(flavor: Flavor, secs: seq<Node>) returns (sections: seq<Section>)
    ensures sections == SectionsOf(flavor, secs)
  {
    sections := [];
    for i := 0 to |secs|
      invariant |sections| == i
      invariant forall k :: 0 <= k < i ==> sections[k] == ExtractSection(flavor, secs[k], k)
    {
      var section := ReadSection(flavor, secs[i], |sections|);
      sections := sections + [section];
    }
  }

  /** One turn of the section loop: the section's name, then its questions. */
  method ReadSection(flavor: Flavor, sec: Node, position: nat) returns (section: Section)
    ensures section == ExtractSection(flavor, sec, position)
  {
    var sectionName := ReadSectionName(sec, position);
    var questions := ReadQuestions(flavor, sec, sectionName);
    section := Section(sectionName, questions);
  }

  /** The name fallbacks, with position the number of sections emitted so far. */
  method ReadSectionName(section: Node, position: nat) returns (sectionName: string)
    ensures sectionName == SectionName(section, position)
  {
    sectionName := GetAttr(section, "data-section-name", "");
    if sectionName == "" {
      var header := Find(section, "header", AnyAttrs);
      sectionName := if header.Some? then Strip(TextOf(header.value)) else "Section " + NatToString(position + 1);
    }
  }

  /** The four passes put together. */
  method ExtractDocument(flavor: Flavor, doc: Node) returns (d: Document)
    ensures d == Extract(flavor, doc)
  {
    var metadata := ReadMetadata(doc);
    var sections := ReadSections(flavor, doc);
    var titleTag := Find(doc, "title", AnyAttrs);
    var title := if titleTag.Some? then Strip(TextOf(titleTag.value)) else "Untitled Document";
    d := Document(title, metadata, sections);
  }

  // ---- what the passes promise ----

  /** The metadata has the five fixed keys in a fixed order, each read from the dcterms meta of that name. */
  lemma MetadataFixedKeys(doc: Node)
    ensures |Metadata(doc)| == 5
    ensures forall k :: 0 <= k < 5 ==>
      Metadata(doc)[k].key == ["identifier", "language", "publisher", "date", "creator"][k]
    ensures forall k :: 0 <= k < 5 ==>
      Metadata(doc)[k].value == MetaValue(doc, "dcterms." + Metadata(doc)[k].key)
  {
    assert "dcterms." + "identifier" == "dcterms.identifier";
    assert "dcterms." + "language" == "dcterms.language";
    assert "dcterms." + "publisher" == "dcterms.publisher";
    assert "dcterms." + "date" == "dcterms.date";
    assert "dcterms." + "creator" == "dcterms.creator";
  }

  /**
   * A metadata value depends on the first matching <meta> only: its content
   * when non-empty, else None; later metas of the same name are never read.
   */
  lemma MetaValueOfFirstMeta(doc: Node, metaName: string, m: Node)
    requires IsFirstMatch(Descendants(doc), m, "meta", AttrIs("name", metaName))
    ensures MetaValue(doc, metaName) ==
      if GetAttr(m, "content", "") != "" then Some(GetAttr(m, "content", "")) else None
  {
    var found := Find(doc, "meta", AttrIs("name", metaName));
    assert m in Descendants(doc);
    FirstMatchUnique(Descendants(doc), found.value, m, "meta", AttrIs("name", metaName));
  }

  /** Two different positions never get the same synthesized name. */
  lemma SynthesizedNamesDistinct(i: nat, j: nat)
    requires i != j
    ensures SynthesizedName(i) != SynthesizedName(j)
  {
    var prefix := "Section ";
    if SynthesizedName(i) == SynthesizedName(j) {
      assert SynthesizedName(i)[|prefix|..] == NatToString(i + 1);
      assert SynthesizedName(j)[|prefix|..] == NatToString(j + 1);
      NatToStringInjective(i + 1, j + 1);
    }
  }

  /** Every <section> element of the document, nested or not, yields its own section. */
  lemma EverySectionElementEmitted(flavor: Flavor, doc: Node, e: Node)
    requires e in Descendants(doc) && Matches(e, "section", AnyAttrs)
    ensures exists i :: (0 <= i < |Extract(flavor, doc).sections| &&
                         FindAll(doc, "section", AnyAttrs)[i] == e &&
                         Extract(flavor, doc).sections[i] == ExtractSection(flavor, e, i))
  {
    var secs := FindAll(doc, "section", AnyAttrs);
    SelectMembers(Descendants(doc), "section", AnyAttrs);
    var i :| 0 <= i < |secs| && secs[i] == e;
    assert Extract(flavor, doc).sections[i] == ExtractSection(flavor, e, i);
  }

  /** The three mutually exclusive ways a section's fields are found. */
  datatype Strategy = TextareaStrategy | LabelStrategy | SectionStrategy

  /**
   * Textareas win if there is any; else labels, if any has text; else the
   * section itself stands in for its one field.
   */
  ghost function StrategyOf(sec: Node): Strategy
  {
    if exists t :: t in Descendants(sec) && Matches(t, "textarea", AnyAttrs) then TextareaStrategy
    else if exists l :: l in Descendants(sec) && Matches(l, "label", AnyAttrs) && Strip(TextOf(l)) != "" then LabelStrategy
    else SectionStrategy
  }

  /**
   * A section with a textarea gets one question per textarea, in order,
   * with the textarea's label, stripped text, field type and id; labels
   * make no questions of their own.
   */
  lemma TextareaStrategyQuestions(flavor: Flavor, sec: Node, name: string)
    requires flavor != Legacy && StrategyOf(sec) == TextareaStrategy
    ensures var qs, tas := Questions(flavor, sec, name), FindAll(sec, "textarea", AnyAttrs);
      && |qs| == |tas|
      && forall k :: 0 <= k < |qs| ==>
        && qs[k].id == k
        && qs[k].labelText == TextareaLabel(flavor, sec, name, GetAttr(tas[k], "id", ""))
        && qs[k].elementId == Some(GetAttr(tas[k], "id", ""))
        && qs[k].answer == Strip(TextOf(tas[k]))
        && qs[k].fieldType == Some(GetAttr(tas[k], "data-field-type", "TEXTAREA"))
  {
    var t :| t in Descendants(sec) && Matches(t, "textarea", AnyAttrs);
    SelectMembers(Descendants(sec), "textarea", AnyAttrs);
    assert t in FindAll(sec, "textarea", AnyAttrs);
  }

  /**
   * A section without textareas but with labels that have text gets one
   * LABEL question per such label, in order, each with an empty answer.
   */
  lemma LabelStrategyQuestions(flavor: Flavor, sec: Node, name: string)
    requires flavor != Legacy && StrategyOf(sec) == LabelStrategy
    ensures var qs, kept := Questions(flavor, sec, name), NonEmptyLabels(FindAll(sec, "label", AnyAttrs));
      && 1 <= |qs| == |kept|
      && (forall k :: 0 <= k < |qs| ==>
        && qs[k] == Question(k, Strip(TextOf(kept[k])), "", Some("LABEL"), None)
        && qs[k].labelText != "")
      && forall l :: l in FindAll(sec, "label", AnyAttrs) && Strip(TextOf(l)) != "" ==> l in kept
  {
    var labels := FindAll(sec, "label", AnyAttrs);
    var kept := NonEmptyLabels(labels);
    SelectEmpty(Descendants(sec), "textarea", AnyAttrs);
    SelectMembers(Descendants(sec), "label", AnyAttrs);
    NonEmptyLabelsMembers(labels);
    var l :| l in Descendants(sec) && Matches(l, "label", AnyAttrs) && Strip(TextOf(l)) != "";
    assert l in kept;
    forall k | 0 <= k < |kept| ensures Strip(TextOf(kept[k])) != "" {
      assert kept[k] in kept;
    }
  }

  /** A section with no textarea and no label with text gets exactly the SECTION placeholder. */
  lemma SectionStrategyQuestions(flavor: Flavor, sec: Node, name: string)
    requires flavor != Legacy && StrategyOf(sec) == SectionStrategy
    ensures Questions(flavor, sec, name) == [Placeholder(name)]
  {
    var labels := FindAll(sec, "label", AnyAttrs);
    var kept := NonEmptyLabels(labels);
    SelectEmpty(Descendants(sec), "textarea", AnyAttrs);
    SelectMembers(Descendants(sec), "label", AnyAttrs);
    NonEmptyLabelsEmpty(labels);
  }

  /** Every section of the canonical and FastAPI converters has a question, and ids run 0, 1, 2, ... */
  lemma EverySectionHasQuestions(flavor: Flavor, doc: Node)
    requires flavor != Legacy
    ensures forall s :: s in Extract(flavor, doc).sections ==>
      |s.questions| >= 1 && forall k :: 0 <= k < |s.questions| ==> s.questions[k].id == k
  {
    var secs := FindAll(doc, "section", AnyAttrs);
    forall i | 0 <= i < |secs|
      ensures var qs := ExtractSection(flavor, secs[i], i).questions;
        |qs| >= 1 && forall k :: 0 <= k < |qs| ==> qs[k].id == k
    {
      QuestionIdsContiguous(flavor, secs[i], SectionName(secs[i], i));
    }
  }

  /** Question ids inside a section run 0, 1, 2, ... for every converter. */
  lemma QuestionIdsContiguous(flavor: Flavor, sec: Node, name: string)
    ensures var qs := Questions(flavor, sec, name);
      (flavor != Legacy ==> |qs| >= 1) && forall k :: 0 <= k < |qs| ==> qs[k].id == k
  {
  }

  /**
   * A <section> nested in another is also part of the outer one: the
   * inner section's textareas are the outer section's textareas too, so a
   * textarea anywhere inside puts the outer section on the textarea strategy.
   */
  lemma NestedSectionTextareas(outer: Node, inner: Node)
    requires inner in Descendants(outer)
    requires StrategyOf(inner) == TextareaStrategy
    ensures StrategyOf(outer) == TextareaStrategy
    ensures forall t :: t in FindAll(inner, "textarea", AnyAttrs) ==> t in FindAll(outer, "textarea", AnyAttrs)
  {
    var t :| t in Descendants(inner) && Matches(t, "textarea", AnyAttrs);
    DescendantsOfSeqClosed(outer.children, inner, t);
    FindAllNested(outer, inner, "textarea", AnyAttrs);
  }

  /** The id-derived label never contains an underscore. */
  lemma IdLabelHasNoUnderscore(id: string)
    ensures forall i :: 0 <= i < |IdLabel(id)| ==> IdLabel(id)[i] != '_'
  {
    var spaced := ReplaceAll(ReplaceAll(id, "Text", ""), "_", " ");
    ReplaceChar(ReplaceAll(id, "Text", ""), '_', ' ');
    if spaced != [] {
      TitleCaseAt(spaced, 0);
      forall i | 0 <= i < |IdLabel(id)| ensures IdLabel(id)[i] != '_' {
        TitleCaseAt(spaced, i);
      }
    }
  }

  /**
   * The canonical converter leaves a textarea's label empty only when the
   * section name is empty and the id-derived label is empty as well.
   */
  lemma CanonicalTextareaLabelEmpty(sec: Node, name: string, taId: string)
    requires TextareaLabel(Canonical, sec, name, taId) == ""
    ensures name == "" && IdLabel(taId) == ""
  {
  }
}
