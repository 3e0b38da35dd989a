# RadReport HTML form extractor, in Dafny

RadReport templates are HTML forms. Each one has a `<title>`, Dublin Core
`<meta name="dcterms.*">` tags, and `<section>` elements that hold
`<textarea>` and `<label>` fields. The repository turns such a form into a
JSON record:

- a title;
- five metadata values;
- a list of sections, each with a name and numbered questions.

The same extractor exists in three versions, and each is modelled here.

- **Canonical** (`radreportconverter/converter.py`). It refuses empty
  content. It then tries three ways of finding a section's fields, in
  order: textareas, labels that have text, and the section itself as a
  placeholder question. It also has a structure report
  (`analyze_html_structure`) that counts sections, textareas and labels
  and classifies the form.
- **FastAPI** (`radreportconverter/fastapi_converter.py`). The same
  algorithm without the empty check. A textarea with no label falls back
  to the section name only.
- **Legacy** (`converter.py`). One question per label, whatever its text,
  with no field types. The batch driver names the output file by
  replacing `.html` with `.json`.

The modules are:

- `Html`: the parsed tree. It replaces BeautifulSoup with
  `Node = Element(tag, attrs, children) | Text(content)`. It defines
  `find_all` (the matching descendants in pre-order), `find` (the first
  of them), `.get` with a default and `.text`. An attribute filter
  follows BeautifulSoup: a tag that lacks the attribute matches the
  filter value `""`.
- `Strings`: Python's `str.strip()` (the full `isspace` set), `replace`
  (left to right, non-overlapping), `title()` and `str(n)`.
- `Extraction`: the shared specification functions (`Extract`,
  parameterised by the version) and the loops of the converters as
  methods proved equal to them. It also holds the properties the three
  field strategies promise.
- `RadConverter`, `FastApiConverter`, `LegacyConverter`: each file's
  entry point, plus the lemmas specific to that version.

The HTML parser is not modelled. Each entry point takes the parsed tree
as a parameter, and the canonical and legacy entry points also take the
raw content their empty check inspects. The metadata dict is an ordered
sequence of `(key, value)` entries, because Python dicts keep insertion
order and `json.dump` writes them in that order.

## Model

| member | source | states |
|---|---|---|
| Html.Select | radreportconverter/converter.py:60 | a size bound only: find_all never returns more elements than it searched (which elements it returns is Html.SelectMembers) |
| Html.SelectMembers | radreportconverter/converter.py:60 | an element is found exactly when it is among the searched nodes and matches tag and attributes |
| Html.SelectEmpty | radreportconverter/converter.py:76-77 | find_all is empty (a falsy list) exactly when no descendant matches |
| Html.Find | radreportconverter/converter.py:84 | find gives None exactly when no descendant matches, otherwise the first match in document order |
| Html.FirstMatchUnique | radreportconverter/converter.py:51 | there is only one first match, so find is determined |
| Html.TextIsDescendantRuns | radreportconverter/converter.py:92 | .text is the concatenation of the text nodes under an element, in document order |
| Html.FindAllNested | radreportconverter/converter.py:76 | what find_all finds inside a nested element it also finds inside the enclosing one |
| Strings.StripSpec | radreportconverter/converter.py:33 | strip() leaves a substring with blank text on either side and no white space at its ends, and is empty exactly when the input is all white space |
| Strings.StripUnique | radreportconverter/converter.py:86 | a substring framed by white space and with non-space ends is the strip() result |
| Strings.StripIdempotent | radreportconverter/converter.py:111 | strip() of a stripped string changes nothing |
| Strings.ReplaceAbsent | radreportconverter/converter.py:89 | replace() leaves a string without the pattern unchanged |
| Strings.ReplaceFirstOccurrence | radreportconverter/converter.py:89 | replace() keeps the text before the first occurrence, puts the replacement there and continues after the occurrence |
| Strings.ReplaceChar | radreportconverter/converter.py:89 | replacing one character by another changes exactly the positions that held it |
| Strings.ReplaceKeepsLength | radreportconverter/converter.py:254 | replacing with a string of the same length keeps the length |
| Strings.TitleCaseAt | radreportconverter/converter.py:89 | title() upper-cases a letter that starts a run of letters and lower-cases the rest of the run |
| Strings.TitleCaseIdempotent | radreportconverter/converter.py:89 | title() of a title-cased string changes nothing |
| Strings.NatToString | radreportconverter/converter.py:65 | str(n) is a non-empty string of digits with no leading zero |
| Strings.DecimalRoundTrip | radreportconverter/converter.py:65 | reading back the digits of str(n) gives n |
| Strings.NatToStringInjective | radreportconverter/converter.py:65 | different numbers print differently |
| Extraction.MetaValue | radreportconverter/converter.py:51-55 | a metadata value, when present, is never the empty string |
| Extraction.ReadMetadata | radreportconverter/converter.py:50-56 | the metadata loop produces one entry per fixed key, in order, each from its meta tag |
| Extraction.ReadMetaValue | radreportconverter/converter.py:51-55 | one metadata value is the first named meta's non-empty content, else None |
| Extraction.MetadataFixedKeys | radreportconverter/converter.py:42-56 | the metadata always has exactly the keys identifier, language, publisher, date and creator, in that order, each read from dcterms.<key> |
| Extraction.MetaValueOfFirstMeta | radreportconverter/converter.py:51-55 | only the first meta tag with that name is consulted: its content if non-empty, else null, whatever later duplicates say |
| Extraction.ReadSectionName | radreportconverter/converter.py:62-65 | a section's name is data-section-name, else its first header's stripped text, else "Section <n>" for the n-th section |
| Extraction.SynthesizedNamesDistinct | radreportconverter/converter.py:65 | two sections at different positions never get the same synthesized name |
| Extraction.ReadSections | radreportconverter/converter.py:59-128 | the section loop produces one section per section element, in document order |
| Extraction.ReadSectionList | radreportconverter/converter.py:60-128 | the i-th section emitted is the extraction of the i-th section element, numbered from its position |
| Extraction.ReadSection | radreportconverter/converter.py:62-126 | one turn of the section loop: the name, then the questions under that name |
| Extraction.EverySectionElementEmitted | radreportconverter/converter.py:60 | every section element of the document, nested ones included, yields its own section |
| Extraction.ReadTextareaQuestions | radreportconverter/converter.py:77-102 | one question per textarea, numbered from 0, with the bound label or the fallback label, the stripped text as answer, data-field-type (default TEXTAREA) and the id |
| Extraction.ReadLegacyQuestions | converter.py:73-81 | one question per label, blank ones included, numbered from 0, with the stripped text, an empty answer and no field type or element id |
| Extraction.ReadLabelQuestions | radreportconverter/converter.py:106-116 | one LABEL question per label with non-empty stripped text, numbered consecutively |
| Extraction.ReadQuestions | radreportconverter/converter.py:73-126 | textareas if there are any, else labels with text, and the SECTION placeholder when nothing was found |
| Extraction.NonEmptyLabels | radreportconverter/converter.py:108 | a size bound only: filtering keeps no more labels than there are (which labels it keeps is Extraction.NonEmptyLabelsMembers) |
| Extraction.NonEmptyLabelsMembers | radreportconverter/converter.py:108 | a label is kept exactly when its stripped text is non-empty |
| Extraction.NonEmptyLabelsEmpty | radreportconverter/converter.py:108 | no label is kept exactly when every label is blank |
| Extraction.TextareaStrategyQuestions | radreportconverter/converter.py:76-102 | with a textarea present, the questions are exactly the textareas in order, with their bound or fallback labels, ids, stripped texts and field types; labels add nothing |
| Extraction.LabelStrategyQuestions | radreportconverter/converter.py:104-116 | without textareas but with a label that has text, each such label and only those becomes a LABEL question with empty answer, in order |
| Extraction.SectionStrategyQuestions | radreportconverter/converter.py:118-126 | with no textarea and no label that has text, the only question is the SECTION placeholder labelled with the section name |
| Extraction.QuestionIdsContiguous | radreportconverter/converter.py:73 | question ids of a section run 0, 1, 2, ... and the later converters never leave a section without a question |
| Extraction.EverySectionHasQuestions | radreportconverter/converter.py:119-126 | every section of the canonical and FastAPI output has at least one question, with ids 0, 1, 2, ... |
| Extraction.NestedSectionTextareas | radreportconverter/converter.py:76 | a textarea inside a nested section also belongs to the enclosing section, which then takes the textarea route too |
| Extraction.IdLabelHasNoUnderscore | radreportconverter/converter.py:89 | the label derived from a textarea id contains no underscore |
| Extraction.CanonicalTextareaLabelEmpty | radreportconverter/converter.py:85-89 | a canonical textarea label is empty only when the section name and the id-derived label are both empty |
| Extraction.ExtractDocument | radreportconverter/converter.py:41-138 | the whole conversion yields the title, the metadata and the sections of the specification |
| RadConverter.ConvertHtmlToJson | radreportconverter/converter.py:33-34 | content is refused exactly when it is empty or all white space; otherwise the result is the canonical extraction |
| RadConverter.AnalyzeHtmlStructure | radreportconverter/converter.py:323-354 | the report counts sections, textareas and labels; the form type is textarea_based iff a textarea exists, label_based iff none does but a label does, section_only iff neither; one detail per section |
| RadConverter.ReadDetails | radreportconverter/converter.py:341-351 | one detail per section, in order, with its name and its textarea and label counts |
| RadConverter.DetailNameAgreesWithSectionName | radreportconverter/converter.py:343 | the report names a section as the conversion does, except "Unnamed" against "Section <n>" when there is neither attribute nor header |
| RadConverter.DetailPredictsStrategy | radreportconverter/converter.py:344-345 | a section's textarea count is non-zero exactly when it takes the textarea route; zero counts mean the placeholder |
| RadConverter.SectionOnlyHasPlaceholders | radreportconverter/converter.py:332-338 | in a section_only document every converted section is just its placeholder question |
| RadConverter.NoFieldsInside | radreportconverter/converter.py:337-338 | a section of a document with no textarea and no label has none either |
| RadConverter.BlankContentExamples | radreportconverter/converter.py:33 | an empty file and a file of white space are refused, markup is not |
| FastApiConverter.ConvertHtmlToJson | radreportconverter/fastapi_converter.py:8-93 | the FastAPI conversion is the extraction of its version, and every section has a question |
| FastApiConverter.EmptyTreeDocument | radreportconverter/fastapi_converter.py:27-87 | a tree without sections or title gives no sections and the title "Untitled Document" |
| FastApiConverter.FastApiTextareaLabelMayBeEmpty | radreportconverter/fastapi_converter.py:46-47 | with no bound label that has text and an empty section name, the textarea's label is empty |
| FastApiConverter.TextareaLabelsAgree | radreportconverter/fastapi_converter.py:47 | with a non-empty section name, FastAPI and canonical label a textarea alike |
| FastApiConverter.FastApiAgreesWithCanonical | radreportconverter/fastapi_converter.py:8-93 | when every section name is non-empty, the FastAPI and canonical records are identical |
| FastApiConverter.BlankHeaderExample | radreportconverter/fastapi_converter.py:47 | under a blank header, an unlabelled textarea with id a_b is labelled "" by FastAPI and "A B" by the canonical converter |
| FastApiConverter.IdLabelExample | radreportconverter/converter.py:89 | the id a_b becomes the label "A B" |
| LegacyConverter.ConvertHtmlToJson | converter.py:33-93 | content is refused exactly when it is empty or all white space; otherwise the result is the label-only extraction |
| LegacyConverter.LegacyQuestionsAreBareLabels | converter.py:73-81 | one question per label, empty ones included, with its stripped text, an empty answer and no field type or element id |
| LegacyConverter.NoLabelsNoQuestions | converter.py:74-83 | a section without labels has an empty question list |
| LegacyConverter.LabelRouteFiltersLegacy | converter.py:74-81 | where the later converters take the label route, their labels are the legacy labels with the empty ones removed, in order |
| LegacyConverter.FilterTextsCommutes | converter.py:77 | filtering the labels and then taking texts equals taking texts and then filtering |
| LegacyConverter.OutputNameOfHtmlFile | converter.py:137 | a name whose only ".html" is its extension becomes the same stem with ".json" |
| LegacyConverter.OutputNameWithoutHtml | converter.py:137 | a name without ".html" is kept as it is |
| LegacyConverter.OutputNameLength | converter.py:137 | the output name has the same length as the input name |

## Left out

- HTML parsing (BeautifulSoup with `html.parser`) is not modelled. Each entry point takes the parsed tree, and the raw content where the source checks it.
- File reading is not modelled: the path construction, the existence check with its FileNotFoundError, and the retry in latin-1 after a UnicodeDecodeError. The ValueError message's file name is not modelled either.
- `save_json_output`, the batch drivers `convert_all_html_files` and the FastAPI routes `/convert` and `/` are I/O, printing and HTTP around the core. They are not part of this model. The only piece of them modelled is the output-name rule of converter.py:137, which radreportconverter/converter.py:254 repeats.
- The warnings printed for missing metadata and the progress messages are output only and are left out.
- Strings.TitleCaseAt: title() is modelled for ASCII letters only. Python also treats non-ASCII letters as cased and changes their case; here they act as word separators.
- Html.TextIsDescendantRuns: the tree has elements and text nodes only. Comments, doctypes and processing instructions are not represented. The tree also carries no text under `<script>`, `<style>`, `<template>`, `<rt>` and `<rp>` elements: BeautifulSoup stores those strings as other string types that `.text` of an enclosing tag skips, whereas TextOf would keep them, so for `<label>Age<script>x</script></label>` the model reads "Agex" where the source reads "Age".
- Legacy `OutputName` replaces every ".html" in the name, as `str.replace` does. The lemmas cover the plain `<stem>.html` case and names without ".html".
