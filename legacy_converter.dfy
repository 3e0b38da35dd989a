/**
 * The first converter (converter.py at the top of the repository): one
 * question per <label>, whatever its text, no textareas and no field
 * types; and the rule that names the output file after the input.
 */
module LegacyConverter {
  import opened Wrappers
  import opened Html
  import opened Strings
  import opened Extraction

  /**
   * convert_html_to_json: content that is empty or only white space is
   * refused; anything else is converted from its parsed tree doc.
   */
  method ConvertHtmlToJson(content: string, doc: Node) returns (r: Result<Document, ConvertError>)
    ensures r.Failure? <==> IsBlank(content)
    ensures r.Success? ==> r.value == Extract(Legacy, doc)
  {
    StripSpec(content);
    if content == [] || |Strip(content)| == 0 {
      return Failure(EmptyContent);
    }
    var d := ExtractDocument(Legacy, doc);
    return Success(d);
  }

  /** The output name of the batch driver: every ".html" in the input name becomes ".json". */
  function OutputName(filename: string): string
  {
    ReplaceAll(filename, ".html", ".json")
  }

  /** A name whose only ".html" is its extension keeps its stem and gets the extension ".json". */
  lemma OutputNameOfHtmlFile(stem: string)
    requires forall i: nat :: i < |stem| ==> !StartsAt(stem + ".html", ".html", i)
    ensures OutputName(stem + ".html") == stem + ".json"
  {
    assert stem + ".html" == stem + ".html" + "";
    ReplaceFirstOccurrence(stem, ".html", "", ".json");
    assert ReplaceAll("", ".html", ".json") == "";
  }

  /** A name without ".html" is left as it is. */
  lemma OutputNameWithoutHtml(filename: string)
    requires forall i: nat :: !StartsAt(filename, ".html", i)
    ensures OutputName(filename) == filename
  {
    ReplaceAbsent(filename, ".html", ".json");
  }

  /** The output name is exactly as long as the input name. */
  lemma OutputNameLength(filename: string)
    ensures |OutputName(filename)| == |filename|
  {
    ReplaceKeepsLength(filename, ".html", ".json");
  }

  /** Every legacy question is a bare label: no field type, no element id, an empty answer. */
  lemma LegacyQuestionsAreBareLabels(sec: Node, name: string)
    ensures var qs, labels := Questions(Legacy, sec, name), FindAll(sec, "label", AnyAttrs);
      && |qs| == |labels|
      && forall k :: 0 <= k < |qs| ==>
        qs[k].fieldType.None? && qs[k].elementId.None? && qs[k].answer == ""
        && qs[k].labelText == Strip(TextOf(labels[k]))
  {
  }

  /** A section without labels has no questions at all: the first converter has no placeholder. */
  lemma NoLabelsNoQuestions(sec: Node, name: string)
    requires forall x :: x in Descendants(sec) ==> !Matches(x, "label", AnyAttrs)
    ensures Questions(Legacy, sec, name) == []
  {
    SelectEmpty(Descendants(sec), "label", AnyAttrs);
  }

  /** The labels of a list of questions, in order. */
  function LabelTexts(qs: seq<Question>): (r: seq<string>)
    ensures |r| == |qs| && forall k :: 0 <= k < |qs| ==> r[k] == qs[k].labelText
  {
    seq(|qs|, k requires 0 <= k < |qs| => qs[k].labelText)
  }

  /** The stripped text of each label, in order. */
  function StrippedTexts(labels: seq<Node>): seq<string>
  {
    seq(|labels|, k requires 0 <= k < |labels| => Strip(TextOf(labels[k])))
  }

  /** The non-empty strings of ts, in order. */
  function NonEmptyTexts(ts: seq<string>): (r: seq<string>)
    ensures |r| <= |ts|
  {
    if ts == [] then [] else (if ts[0] != "" then [ts[0]] else []) + NonEmptyTexts(ts[1..])
  }

  /** Filtering the texts is the same as filtering the labels, then taking their texts. */
  lemma {:induction false} FilterTextsCommutes(labels: seq<Node>)
    ensures NonEmptyTexts(StrippedTexts(labels)) == StrippedTexts(NonEmptyLabels(labels))
  {
    if labels != [] {
      var head, rest := labels[0], labels[1..];
      FilterTextsCommutes(rest);
      assert StrippedTexts(labels)[1..] == StrippedTexts(rest);
      var keptHead := if Strip(TextOf(head)) != "" then [head] else [];
      assert NonEmptyLabels(labels) == keptHead + NonEmptyLabels(rest);
      var kept := NonEmptyLabels(labels);
      assert StrippedTexts(kept) == StrippedTexts(keptHead) + StrippedTexts(NonEmptyLabels(rest));
    }
  }

  /**
   * Where the later converters take the label route, they keep exactly
   * the legacy questions with a non-empty label, in the same order.
   */
  lemma LabelRouteFiltersLegacy(flavor: Flavor, sec: Node, name: string)
    requires flavor != Legacy && StrategyOf(sec) == LabelStrategy
    ensures LabelTexts(Questions(flavor, sec, name)) == NonEmptyTexts(LabelTexts(Questions(Legacy, sec, name)))
  {
    var labels := FindAll(sec, "label", AnyAttrs);
    var kept := NonEmptyLabels(labels);
    LabelStrategyQuestions(flavor, sec, name);
    assert LabelTexts(Questions(Legacy, sec, name)) == StrippedTexts(labels);
    assert LabelTexts(Questions(flavor, sec, name)) == StrippedTexts(kept);
    FilterTextsCommutes(labels);
  }
}
