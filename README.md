# WordXML custom-property template processor

This project models the WordXML template processor of the Nuxeo rendering-templates platform, and proves what it does.

## What the processor does

A `.docx` package carries a custom file properties part, `docProps/custom.xml`. This part is described in sections 22.3 and 22.4 of ECMA-376 Part 1. Its root element has `property` children. Each child has a `name` attribute and one typed value element, such as `vt:lpwstr`, `vt:filetime` or `vt:bool`. The model names elements by their local name (`lpwstr`), as dom4j's `getName` does.

The processor does three things:

- **Discovery** (`getInitialParametersDefinition`): turns every property into a template parameter (`TemplateInput`). The parameter's type comes from the value element's tag.
- **Rendering** (`renderTemplate`): sets the text of every property's value element. The text comes from a static parameter, or from a field of the bound document. Then it repacks the package.
- **Reverse sync** (`updateDocumentFromBlob`): reads the rendered values back into the parameters. For source-linked Boolean parameters, it writes into document fields instead.

Two helpers support these: `getParamByName` and `readPropertyFile`.

## Modules

- `TemplateTypes` (`template_types.dfy`) holds the template API.
  - `TemplateInput` is a value record. None stands for a Java null.
  - The bound document is a map of field paths to values.
  - The shared `SimpleDateFormat` is given by its `format` and `parse` operations (`DateFormat`).
  - `new Boolean(s)` is `ParseBoolean`.
  - The exceptions the processor lets escape are the `Error` kinds.
- `Dom` (`dom4j` as the processor uses it) has elements with attributes, child elements and character data.
  - A stream is either raw text that does not parse, or an already decoded root element.
  - `Element.getTextTrim` is `TextTrim`: tokenise on whitespace and join with single spaces.
- `Zip` models a zip stream as its entries in stream order, and an unzipped directory as a map.
  - `Unzip` lets a later entry overwrite an earlier one.
  - `Zips` says that a blob is one of the zip streams of a package.
- `WordXmlProcessor` holds the operations.
  - Each is an imperative method proved equal to a specification function: `GetParamByName`, `ReadPropertyFile`, `GetInitialParametersDefinition`, `RenderTemplate`, `UpdateDocumentFromBlob`, and the loop body of the last (`ReadBackProperty`, `WriteBackValue`).
  - `RenderTemplate` rewrites the root's children in an array in place.
  - The tag-to-type chain `InferType` is a function.
- `WordXmlProperties` holds what the processor promises, proved about those functions.

## Sharp edges of the processor

- Type inference uses `String.contains`, so it is case sensitive: a value element named `FILETIME` gives StringValue (`InferTypeOfTags`).
- A property with no parameter of its name fails on null in both rendering and reverse sync, because `param.isSourceValue()` is called on the null lookup result (`UnmatchedPropertyFails`, `RenderedPackageOk`).
- Discovery on a package without a custom properties stream fails on null, because `parseText` is given the null that `readPropertyFile` returns (`InitialParameters`).
- Reverse sync reads a Boolean with `new Boolean(s)`, which gives false for any text other than "true" in some case, such as "maybe" (`ParseBooleanExamples`).
- Reverse sync reads the text through `getTextTrim`, which drops surrounding whitespace and turns each inner whitespace run into one space (`Dom.TextTrimPadded`, `Dom.TextTrimGap`). So a string value reads back as itself only if it is in that normal form (`RenderThenSync`, `Dom.IsNormalText`).
- For source-linked parameters, only Booleans are written back. The String and Date branches compare a class name with an `InputType`, which is never equal (`SyncedWritesOnlyBooleanSources`).
- Discovery reads the first `docProps/custom.xml` entry of the zip stream. Rendering reads the unzipped directory, where the last such entry wins (`PropertyFileIsFirstEntry`, `Zip.UnzipLastWins`).
- Reverse sync writes into the caller's parameter objects and document as it goes. A property that fails (a missing parameter, a missing value element, an unparsable date) leaves the writes of the properties before it in place, and nothing is saved (`SyncReachedOnFailure`, `LeftBehindOutcome`).

## Model

All paths in the source column are under `src/main/java/org/nuxeo/ecm/platform/template/processors/docx/`. The cells give the full path.

| member | source | states |
|---|---|---|
| WordXmlProcessor.GetParamByName | src/main/java/org/nuxeo/ecm/platform/template/processors/docx/WordXMLRawTemplateProcessor.java:175-183 | the loop returns the position `ParamIndex` gives: the first parameter of that name, none at the end of the list, and a null dereference when a parameter with a null name comes first |
| WordXmlProperties.ParamIndexFirstMatch | src/main/java/org/nuxeo/ecm/platform/template/processors/docx/WordXMLRawTemplateProcessor.java:175-183 | the found index is the first whose name equals the argument, with every earlier name non-null and different; nothing is found exactly when every name is non-null and differs; a failure means a null name precedes any match |
| WordXmlProcessor.ReadPropertyFile | src/main/java/org/nuxeo/ecm/platform/template/processors/docx/WordXMLRawTemplateProcessor.java:185-204 | the scan with break returns `PropertyFile(entries)` |
| WordXmlProperties.PropertyFileIsFirstEntry | src/main/java/org/nuxeo/ecm/platform/template/processors/docx/WordXMLRawTemplateProcessor.java:185-204 | the result is missing exactly when no entry is named `docProps/custom.xml`, and otherwise is the content of the first entry of that name |
| WordXmlProperties.ZipsPropertyFile | src/main/java/org/nuxeo/ecm/platform/template/processors/docx/WordXMLRawTemplateProcessor.java:185-204 | on any zip stream of a package, the scan returns that package's custom properties file, or nothing when it has none |
| WordXmlProcessor.GetInitialParametersDefinition | src/main/java/org/nuxeo/ecm/platform/template/processors/docx/WordXMLRawTemplateProcessor.java:141-173 | the loop returns `InitialParameters(blob)`: a null dereference without a custom stream, the parse failure of a malformed one, else the discovered list |
| WordXmlProperties.InferTypeIsTableLookup | src/main/java/org/nuxeo/ecm/platform/template/processors/docx/WordXMLRawTemplateProcessor.java:157-165 | the if-chain equals a first-match lookup in the table lpwstr→String, filetime→Date, bool→Boolean, with String as the default |
| WordXmlProperties.InferTypeFirstMatch | src/main/java/org/nuxeo/ecm/platform/template/processors/docx/WordXMLRawTemplateProcessor.java:157-165 | each type is inferred exactly when its substring occurs and no earlier one does |
| WordXmlProperties.InferTypeOfTags | src/main/java/org/nuxeo/ecm/platform/template/processors/docx/WordXMLRawTemplateProcessor.java:157-165 | lpwstr, filetime, bool and an unknown tag give String, Date, Boolean, String; upper-case FILETIME gives String |
| WordXmlProperties.DiscoverInputsOk | src/main/java/org/nuxeo/ecm/platform/template/processors/docx/WordXMLRawTemplateProcessor.java:151-171 | discovery succeeds exactly when every `property` child has a value element, and otherwise fails with an index out of bounds |
| WordXmlProperties.DiscoverInputsValues | src/main/java/org/nuxeo/ecm/platform/template/processors/docx/WordXMLRawTemplateProcessor.java:151-171 | one parameter per `property` child in document order, non-property children skipped, names not de-duplicated; each has the name attribute, the value element's inferred type, no source and no value |
| WordXmlProperties.DiscoveredInputsCoverProperties | src/main/java/org/nuxeo/ecm/platform/template/processors/docx/WordXMLRawTemplateProcessor.java:151-183 | if every property has a name attribute, the lookup finds a discovered parameter for each property |
| WordXmlProcessor.RenderValueText | src/main/java/org/nuxeo/ecm/platform/template/processors/docx/WordXMLRawTemplateProcessor.java:91-115 | it fails exactly for a static parameter whose value of its type is null; a source-linked parameter whose field is absent or null gives ""; a set static Boolean gives its `Boolean.toString` text |
| WordXmlProcessor.RenderTemplate | src/main/java/org/nuxeo/ecm/platform/template/processors/docx/WordXMLRawTemplateProcessor.java:62-138 | the in-place rewrite of the root's children returns `RenderedPackage`, the first failing property ending the call |
| WordXmlProcessor.RenderNodesAllOk | src/main/java/org/nuxeo/ecm/platform/template/processors/docx/WordXMLRawTemplateProcessor.java:84-117 | when every node renders, the rewritten list is the nodes rendered one by one |
| WordXmlProcessor.RenderNodesFirstError | src/main/java/org/nuxeo/ecm/platform/template/processors/docx/WordXMLRawTemplateProcessor.java:84-117 | the first node that fails decides the failure of the whole rewrite |
| WordXmlProperties.RenderNodesEach | src/main/java/org/nuxeo/ecm/platform/template/processors/docx/WordXMLRawTemplateProcessor.java:84-117 | the rewrite succeeds exactly when every node renders, and then it keeps the length and renders node k into position k |
| WordXmlProperties.RenderNodeOk | src/main/java/org/nuxeo/ecm/platform/template/processors/docx/WordXMLRawTemplateProcessor.java:86-115 | a node renders exactly when it is no property, or a parameter of its name exists, it has a value element and its value text can be produced |
| WordXmlProperties.UnmatchedPropertyFails | src/main/java/org/nuxeo/ecm/platform/template/processors/docx/WordXMLRawTemplateProcessor.java:226-234 | a property with no parameter of its name fails on null in reverse sync, and also in rendering (lines 86-92) |
| WordXmlProperties.RenderedPackageOk | src/main/java/org/nuxeo/ecm/platform/template/processors/docx/WordXMLRawTemplateProcessor.java:73-117 | rendering succeeds exactly when the unzipped template has a parsable custom properties file whose every child renders |
| WordXmlProperties.RenderNodeResult | src/main/java/org/nuxeo/ecm/platform/template/processors/docx/WordXMLRawTemplateProcessor.java:84-116 | a non-property node is unchanged; a property keeps its tag, attributes, text, value element tag, attributes and children and its other children, and its value text is the text of the first parameter of its name |
| WordXmlProperties.RenderedPackagePreserves | src/main/java/org/nuxeo/ecm/platform/template/processors/docx/WordXMLRawTemplateProcessor.java:62-137 | the result keeps the template's file name and set of members and every member but the custom properties file; that file keeps its root's tag, attributes, text and child count, child k rendered from child k |
| WordXmlProcessor.UpdateDocumentFromBlob | src/main/java/org/nuxeo/ecm/platform/template/processors/docx/WordXMLRawTemplateProcessor.java:207-260 | the loop returns `Synced`, and leaves the caller's document and parameters as `LeftBehind`, also when it fails; without a custom stream nothing changes and nothing is saved |
| WordXmlProcessor.ReadBackProperty | src/main/java/org/nuxeo/ecm/platform/template/processors/docx/WordXMLRawTemplateProcessor.java:227-256 | one property read back: lookup, value element, trimmed text and write-back, as `SyncProperty` |
| WordXmlProcessor.WriteBackValue | src/main/java/org/nuxeo/ecm/platform/template/processors/docx/WordXMLRawTemplateProcessor.java:234-255 | the write-back chain on the parameter found, as `WriteBack` |
| WordXmlProperties.SyncNodesInvariant | src/main/java/org/nuxeo/ecm/platform/template/processors/docx/WordXMLRawTemplateProcessor.java:226-257 | reverse sync keeps every parameter's name, type and source, changes at most its value of its type, never changes a source-linked parameter, and changes or adds only document fields read by a source-linked Boolean parameter, and only to a Boolean |
| WordXmlProperties.SyncNodesUntouched | src/main/java/org/nuxeo/ecm/platform/template/processors/docx/WordXMLRawTemplateProcessor.java:226-257 | a parameter no property resolves to is left as it was |
| WordXmlProperties.SyncNodesLastWins | src/main/java/org/nuxeo/ecm/platform/template/processors/docx/WordXMLRawTemplateProcessor.java:226-257 | when several properties resolve to one static parameter, its final value is the last one's trimmed text stored for its type |
| WordXmlProperties.SyncedOutcome | src/main/java/org/nuxeo/ecm/platform/template/processors/docx/WordXMLRawTemplateProcessor.java:211-259 | parameters are saved exactly when the custom stream exists; without it the document is unchanged; with it the sync invariant holds between input and output |
| WordXmlProperties.SyncedWritesOnlyBooleanSources | src/main/java/org/nuxeo/ecm/platform/template/processors/docx/WordXMLRawTemplateProcessor.java:234-246 | when no source-linked parameter is a Boolean, reverse sync leaves the document as it was: the String and Date branches never write |
| WordXmlProperties.SyncReachedOnFailure | src/main/java/org/nuxeo/ecm/platform/template/processors/docx/WordXMLRawTemplateProcessor.java:226-257 | when a property fails, the caller's objects hold exactly the writes of the nodes before it, and the call's error is that property's error |
| WordXmlProperties.SyncReachedInvariant | src/main/java/org/nuxeo/ecm/platform/template/processors/docx/WordXMLRawTemplateProcessor.java:226-257 | the writes left behind, after success or failure, keep the sync invariant |
| WordXmlProperties.LeftBehindOutcome | src/main/java/org/nuxeo/ecm/platform/template/processors/docx/WordXMLRawTemplateProcessor.java:207-260 | the caller's objects keep the sync invariant in every case; without a custom stream they are unchanged; when the call returns they hold its result |
| WordXmlProperties.ParseBooleanExamples | src/main/java/org/nuxeo/ecm/platform/template/processors/docx/WordXMLRawTemplateProcessor.java:250-251 | "true" in any case is true; "false", "yes", "maybe", "1", "", "true " and "truth" are false, without failing |
| WordXmlProperties.BooleanTextRoundTrip | src/main/java/org/nuxeo/ecm/platform/template/processors/docx/WordXMLRawTemplateProcessor.java:109-110 | the rendered text of a Boolean survives `getTextTrim` and parses back to the same Boolean |
| WordXmlProperties.RenderThenSync | src/main/java/org/nuxeo/ecm/platform/template/processors/docx/WordXMLRawTemplateProcessor.java:62-260 | reading back any zip stream of a rendered package returns the document and the parameters unchanged, provided every static value is set and reads back as itself and every source-linked Boolean's field already holds a Boolean |
| WordXmlProperties.AuthorScenario | src/main/java/org/nuxeo/ecm/platform/template/processors/docx/WordXMLRawTemplateProcessor.java:62-260 | a template with one text property "Author" is discovered as one text parameter; bound to "Jane Doe" it renders that text into the property and leaves the other member alone; reading it back gives the same parameter |
| Dom.TextTrimIsNormal | src/main/java/org/nuxeo/ecm/platform/template/processors/docx/WordXMLRawTemplateProcessor.java:233 | `getTextTrim` yields text whose only whitespace is single inner spaces, and is idempotent |
| Dom.NormalTextIsFixed | src/main/java/org/nuxeo/ecm/platform/template/processors/docx/WordXMLRawTemplateProcessor.java:233 | `getTextTrim` leaves text in that normal form as it is |
| Dom.TextTrimPadded | src/main/java/org/nuxeo/ecm/platform/template/processors/docx/WordXMLRawTemplateProcessor.java:233 | `getTextTrim` ignores any whitespace before and after the text |
| Dom.TextTrimGap | src/main/java/org/nuxeo/ecm/platform/template/processors/docx/WordXMLRawTemplateProcessor.java:233 | a whitespace run of any length after a word becomes one space |
| Dom.TextTrimTwoWords | src/main/java/org/nuxeo/ecm/platform/template/processors/docx/WordXMLRawTemplateProcessor.java:233 | two words with any whitespace around and between them read back as the words joined by one space |
| Zip.UnzipKeys | src/main/java/org/nuxeo/ecm/platform/template/processors/docx/WordXMLRawTemplateProcessor.java:73 | the unzipped directory holds exactly the paths of the entries |
| Zip.UnzipLastWins | src/main/java/org/nuxeo/ecm/platform/template/processors/docx/WordXMLRawTemplateProcessor.java:73 | each path holds the content of the last entry of that path |
| Zip.UnzipZips | src/main/java/org/nuxeo/ecm/platform/template/processors/docx/WordXMLRawTemplateProcessor.java:126-127 | unzipping any zip stream of a package gives back the package's files |

## Left out

- Zip and file I/O is not modelled. That covers the working directory, temporary files, `transferTo`, writing and deleting files, and `ZipUtils`. A package is its entries, an unzipped directory is a map, and zipping is the `Zips` relation, whose entry order is free.
- The scratch directory of `AbstractTemplateProcessor.getWorkingDir` is not modelled. It is file system work keyed on the clock.
- dom4j parsing and `asXML` serialisation are not modelled. A stream is an already decoded root element, and the rendered file is that element. Byte-for-byte preservation of the serialised XML is therefore not stated. `Dom.ParseText` stands in for `parseText` at lines 80, 147 and 219: it fails with `MalformedXml` on content given as raw text, and states nothing about XML syntax.
- Character data mixed between child elements is kept as one `text` string per element. Its position among the children is not modelled.
- The charset decoding of the custom stream in 64K chunks is not modelled. Entry content is already text.
- `SimpleDateFormat` is not modelled. Its `hh` hour field, its time-zone dependence and its parse rules are given by the caller as `DateFormat`. A failing parse is `DateParse`. The shared static formatter is not thread safe, and that concurrency is not modelled.
- `TemplateInput` objects are values. Reverse sync returns the updated list, and `LeftBehind` gives what the caller's objects hold, also after a failure. Aliasing between two list positions holding the same object is not modelled.
- The `DocumentModel` property API is a map from path to value. `getProperty` on a path the document lacks is taken to give null, so the field renders as "". `setPropertyValue` on such a path adds it. Values of classes other than String, Boolean and Date (such as `Calendar`) are `OtherField` and render through their `toString` text.
- `saveParams` persistence and the adapted document it returns are not modelled. `UpdateDocumentFromBlob` returns the list it would save.
- `TemplateBasedActionBean` (UI actions) is not part of this model.
- `UpdateDocumentFromBlob` does not state the document value a source-linked Boolean receives. When several parameters share a source field, the last write wins. `SyncNodesInvariant` states only that the field becomes a Boolean read by such a parameter.
