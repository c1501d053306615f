/** The WordXML raw template processor: it discovers, renders and reads
    back the custom file properties (docProps/custom.xml) of a .docx
    package. Each operation is a method that follows the processor's loop,
    proved equal to a function that specifies it. */
module WordXmlProcessor {
  import opened TemplateTypes
  import opened Dom
  import opened Zip

  /** The package member that holds the custom properties. */
  const CustomXmlPath: string := "docProps/custom.xml"

  /** The tag of the root's children that are properties. */
  const PropertyTag: string := "property"

  /** The attribute that names a property. */
  const NameAttribute: string := "name"

  predicate IsProperty(e: Element) {
    e.tag == PropertyTag
  }

  // ---------------------------------------------------------------------
  // Type inference

  predicate OccursAt(s: string, sub: string, i: int) {
    0 <= i && i + |sub| <= |s| && s[i..i + |sub|] == sub
  }

  /** String.contains. */
  predicate Contains(s: string, sub: string) {
    exists i | 0 <= i <= |s| :: OccursAt(s, sub, i)
  }

  /** The value type of a property, from the tag of its value element. */
  function InferType(wordType: string): InputType {
    if Contains(wordType, "lpwstr") then StringValue
    else if Contains(wordType, "filetime") then DateValue
    else if Contains(wordType, "bool") then BooleanValue
    else StringValue
  }

  // ---------------------------------------------------------------------
  // getParamByName

  /** The index of the first parameter from i on whose name equals name,
      None when there is none; a null parameter name met before it is
      dereferenced. */
  function ParamIndexFrom(name: Option<string>, params: seq<TemplateInput>, i: nat): (r: Result<Option<nat>>)
    ensures r.Err? ==> r.error == NullDereference
    ensures r.Ok? && r.value.Some? ==> i <= r.value.value < |params|
    decreases |params| - i
  {
    if i >= |params| then Ok(None)
    else if params[i].name.None? then Err(NullDereference)
    else if params[i].name == name then Ok(Some(i))
    else ParamIndexFrom(name, params, i + 1)
  }

  function ParamIndex(name: Option<string>, params: seq<TemplateInput>): Result<Option<nat>> {
    ParamIndexFrom(name, params, 0)
  }

  /** getParamByName, returning the position of the parameter it finds. */
  method GetParamByName(name: Option<string>, params: seq<TemplateInput>) returns (r: Result<Option<nat>>)
    ensures r == ParamIndex(name, params)
  {
    var i := 0;
    while i < |params|
      invariant 0 <= i <= |params|
      invariant ParamIndexFrom(name, params, i) == ParamIndex(name, params)
    {
      if params[i].name.None? {
        return Err(NullDereference);
      }
      if params[i].name == name {
        return Ok(Some(i));
      }
      i := i + 1;
    }
    return Ok(None);
  }

  // ---------------------------------------------------------------------
  // readPropertyFile

  /** The content of the first entry named docProps/custom.xml. */
  function PropertyFile(entries: seq<Entry>): Option<Content> {
    if |entries| == 0 then None
    else if entries[0].name == CustomXmlPath then Some(entries[0].content)
    else PropertyFile(entries[1..])
  }

  /** readPropertyFile: scans the zip stream and stops at the first entry
      named docProps/custom.xml; None stands for the null it returns. */
  method ReadPropertyFile(entries: seq<Entry>) returns (xmlContent: Option<Content>)
    ensures xmlContent == PropertyFile(entries)
  {
    xmlContent := None;
    var i := 0;
    while i < |entries|
      invariant 0 <= i <= |entries|
      invariant PropertyFile(entries[i..]) == PropertyFile(entries)
    {
      if entries[i].name == CustomXmlPath {
        xmlContent := Some(entries[i].content);
        break;
      }
      assert entries[i..][1..] == entries[i + 1..];
      i := i + 1;
    }
  }

  // ---------------------------------------------------------------------
  // getInitialParametersDefinition

  /** The parameter a property element declares: its name attribute, the
      type of its first child's tag, no source and no value. */
  function UnboundInput(e: Element): TemplateInput
    requires |e.children| > 0
  {
    TemplateInput(AttributeValue(e, NameAttribute), InferType(e.children[0].tag), None, None, None, None)
  }

  function Prepend<T>(xs: seq<T>, r: Result<seq<T>>): Result<seq<T>> {
    match r
    case Ok(ys) => Ok(xs + ys)
    case Err(e) => Err(e)
  }

  lemma PrependTwice<T>(xs: seq<T>, ys: seq<T>, r: Result<seq<T>>)
    ensures Prepend(xs, Prepend(ys, r)) == Prepend(xs + ys, r)
  {
    if r.Ok? {
      assert xs + (ys + r.value) == (xs + ys) + r.value;
    }
  }

  /** The parameters the root's children declare, in document order. */
  function DiscoverInputs(nodes: seq<Element>): Result<seq<TemplateInput>> {
    if |nodes| == 0 then Ok([])
    else if !IsProperty(nodes[0]) then DiscoverInputs(nodes[1..])
    else if |nodes[0].children| == 0 then Err(IndexOutOfBounds)
    else Prepend([UnboundInput(nodes[0])], DiscoverInputs(nodes[1..]))
  }

  /** What getInitialParametersDefinition returns for a template blob. A
      missing custom stream reaches parseText as null. */
  function InitialParameters(blob: Blob): Result<seq<TemplateInput>> {
    match PropertyFile(blob.entries)
    case None => Err(NullDereference)
    case Some(c) =>
      match ParseText(c)
      case Err(e) => Err(e)
      case Ok(root) => DiscoverInputs(root.children)
  }

  method GetInitialParametersDefinition(blob: Blob) returns (r: Result<seq<TemplateInput>>)
    ensures r == InitialParameters(blob)
  {
    var xmlContent := ReadPropertyFile(blob.entries);
    if xmlContent.None? {
      return Err(NullDereference);
    }
    var xmlDoc := ParseText(xmlContent.value);
    if xmlDoc.Err? {
      return Err(xmlDoc.error);
    }
    var nodes := xmlDoc.value.children;
    var params: seq<TemplateInput> := [];
    var i := 0;
    assert nodes[0..] == nodes;
    assert Prepend(params, DiscoverInputs(nodes)) == DiscoverInputs(nodes) by {
      if DiscoverInputs(nodes).Ok? {
        assert [] + DiscoverInputs(nodes).value == DiscoverInputs(nodes).value;
      }
    }
    while i < |nodes|
      invariant 0 <= i <= |nodes|
      invariant Prepend(params, DiscoverInputs(nodes[i..])) == DiscoverInputs(nodes)
    {
      var elem := nodes[i];
      assert nodes[i..][1..] == nodes[i + 1..];
      if IsProperty(elem) {
        if |elem.children| == 0 {
          return Err(IndexOutOfBounds);
        }
        var input := UnboundInput(elem);
        PrependTwice(params, [input], DiscoverInputs(nodes[i + 1..]));
        params := params + [input];
      }
      i := i + 1;
    }
    assert nodes[i..] == [];
    assert params + [] == params;
    return Ok(params);
  }

  // ---------------------------------------------------------------------
  // renderTemplate

  /** The text a parameter renders to. A source-linked parameter reads its
      field: absent or null gives "", a Date is formatted, anything else
      is its toString. A static parameter gives the value of its type. */
  function RenderValueText(p: TemplateInput, doc: Document, fmt: DateFormat): (r: Result<string>)
    ensures r.Err? <==> !p.IsSourceValue() && match p.inputType
                          case StringValue => p.stringValue.None?
                          case BooleanValue => p.booleanValue.None?
                          case DateValue => p.dateValue.None?
    ensures p.IsSourceValue() && (p.source.value !in doc || doc[p.source.value].NullValue?) ==> r == Ok("")
    ensures !p.IsSourceValue() && p.inputType == BooleanValue && p.booleanValue.Some?
            ==> r == Ok(BooleanToString(p.booleanValue.value))
  {
    if p.IsSourceValue() then
      var source := p.source.value;
      if source !in doc then Ok("")
      else match doc[source]
        case NullValue => Ok("")
        case DateField(d) => Ok(fmt.format(d))
        case _ => Ok(FieldText(doc[source]))
    else match p.inputType
      // dom4j's setText refuses null
      case StringValue => if p.stringValue.Some? then Ok(p.stringValue.value) else Err(IllegalArgument)
      case BooleanValue => if p.booleanValue.Some? then Ok(BooleanToString(p.booleanValue.value)) else Err(NullDereference)
      case DateValue => if p.dateValue.Some? then Ok(fmt.format(p.dateValue.value)) else Err(NullDereference)
  }

  /** e with the text of its first child set to s. */
  function WithValueText(e: Element, s: string): Element
    requires |e.children| > 0
  {
    e.(children := [e.children[0].(text := s)] + e.children[1..])
  }

  /** One property as renderTemplate rewrites it. A property without a
      parameter of its name makes the processor dereference null. */
  function RenderProperty(e: Element, params: seq<TemplateInput>, doc: Document, fmt: DateFormat): Result<Element>
    requires IsProperty(e)
  {
    match ParamIndex(AttributeValue(e, NameAttribute), params)
    case Err(err) => Err(err)
    case Ok(found) =>
      if |e.children| == 0 then Err(IndexOutOfBounds)
      else if found.None? then Err(NullDereference)
      else
        match RenderValueText(params[found.value], doc, fmt)
        case Err(err) => Err(err)
        case Ok(s) => Ok(WithValueText(e, s))
  }

  function RenderNode(e: Element, params: seq<TemplateInput>, doc: Document, fmt: DateFormat): Result<Element> {
    if IsProperty(e) then RenderProperty(e, params, doc, fmt) else Ok(e)
  }

  /** The root's children after rendering; the first node that fails ends
      the call. */
  function RenderNodes(nodes: seq<Element>, params: seq<TemplateInput>, doc: Document, fmt: DateFormat): Result<seq<Element>> {
    if |nodes| == 0 then Ok([])
    else match RenderNode(nodes[0], params, doc, fmt)
      case Err(e) => Err(e)
      case Ok(x) => Prepend([x], RenderNodes(nodes[1..], params, doc, fmt))
  }

  /** The package renderTemplate produces: the template unzipped, its
      custom properties file rewritten, under the template's file name. */
  function RenderedPackage(template: Blob, params: seq<TemplateInput>, doc: Document, fmt: DateFormat): Result<Package> {
    var files := Unzip(template.entries);
    if CustomXmlPath !in files then Err(FileNotFound)
    else match ParseText(files[CustomXmlPath])
      case Err(e) => Err(e)
      case Ok(root) =>
        match RenderNodes(root.children, params, doc, fmt)
        case Err(e) => Err(e)
        case Ok(children) =>
          Ok(Package(template.filename, files[CustomXmlPath := Xml(root.(children := children))]))
  }

  lemma {:induction false} RenderNodesAllOk(nodes: seq<Element>, params: seq<TemplateInput>, doc: Document, fmt: DateFormat, out: seq<Element>)
    requires |out| == |nodes|
    requires forall k :: 0 <= k < |nodes| ==> RenderNode(nodes[k], params, doc, fmt) == Ok(out[k])
    ensures RenderNodes(nodes, params, doc, fmt) == Ok(out)
  {
    if |nodes| > 0 {
      RenderNodesAllOk(nodes[1..], params, doc, fmt, out[1..]);
      assert [out[0]] + out[1..] == out;
    }
  }

  lemma {:induction false} RenderNodesFirstError(nodes: seq<Element>, params: seq<TemplateInput>, doc: Document, fmt: DateFormat, i: nat, e: Error)
    requires i < |nodes|
    requires forall k :: 0 <= k < i ==> RenderNode(nodes[k], params, doc, fmt).Ok?
    requires RenderNode(nodes[i], params, doc, fmt) == Err(e)
    ensures RenderNodes(nodes, params, doc, fmt) == Err(e)
  {
    if i > 0 {
      RenderNodesFirstError(nodes[1..], params, doc, fmt, i - 1, e);
    }
  }

  /** renderTemplate: walks the root's children of the parsed custom
      properties and sets the text of each property's value element. */
  method RenderTemplate(template: Blob, params: seq<TemplateInput>, doc: Document, fmt: DateFormat) returns (r: Result<Package>)
    ensures r == RenderedPackage(template, params, doc, fmt)
  {
    var files := Unzip(template.entries);
    if CustomXmlPath !in files {
      return Err(FileNotFound);
    }
    var xmlDoc := ParseText(files[CustomXmlPath]);
    if xmlDoc.Err? {
      return Err(xmlDoc.error);
    }
    var root := xmlDoc.value;
    var nodes := new Element[|root.children|](k requires 0 <= k < |root.children| => root.children[k]);
    var i := 0;
    while i < nodes.Length
      invariant 0 <= i <= nodes.Length == |root.children|
      invariant forall k :: 0 <= k < i ==> RenderNode(root.children[k], params, doc, fmt) == Ok(nodes[k])
      invariant forall k :: i <= k < nodes.Length ==> nodes[k] == root.children[k]
    {
      var elem := nodes[i];
      if IsProperty(elem) {
        var param := GetParamByName(AttributeValue(elem, NameAttribute), params);
        if param.Err? {
          RenderNodesFirstError(root.children, params, doc, fmt, i, param.error);
          return Err(param.error);
        }
        if |elem.children| == 0 {
          RenderNodesFirstError(root.children, params, doc, fmt, i, IndexOutOfBounds);
          return Err(IndexOutOfBounds);
        }
        if param.value.None? {
          RenderNodesFirstError(root.children, params, doc, fmt, i, NullDereference);
          return Err(NullDereference);
        }
        var strValue := RenderValueText(params[param.value.value], doc, fmt);
        if strValue.Err? {
          RenderNodesFirstError(root.children, params, doc, fmt, i, strValue.error);
          return Err(strValue.error);
        }
        var valueElem := elem.children[0];
        nodes[i] := elem.(children := [valueElem.(text := strValue.value)] + elem.children[1..]);
      }
      i := i + 1;
    }
    RenderNodesAllOk(root.children, params, doc, fmt, nodes[..]);
    var newXmlContent := Xml(root.(children := nodes[..]));
    return Ok(Package(template.filename, files[CustomXmlPath := newXmlContent]));
  }

  // ---------------------------------------------------------------------
  // updateDocumentFromBlob

  /** The document fields and the parameters while the stream is read back. */
  datatype SyncState = SyncState(doc: Document, params: seq<TemplateInput>)

  /** A static parameter after its value for its type is read from text. */
  function StoreValue(p: TemplateInput, text: string, fmt: DateFormat): Result<TemplateInput> {
    match p.inputType
    case StringValue => Ok(p.(stringValue := Some(text)))
    case BooleanValue => Ok(p.(booleanValue := Some(ParseBoolean(text))))
    case DateValue =>
      match fmt.parse(text)
      case None => Err(DateParse(text))
      case Some(d) => Ok(p.(dateValue := Some(d)))
  }

  /** The value text of a property written back through the parameter at
      index i. For a source-linked parameter the processor compares the
      class names "String" and "Date" with the parameter's InputType, which
      never holds, so only a Boolean is written to the document. */
  function WriteBack(st: SyncState, i: nat, xmlValue: string, fmt: DateFormat): Result<SyncState>
    requires i < |st.params|
  {
    var p := st.params[i];
    if p.IsSourceValue() then
      if p.inputType == BooleanValue then
        Ok(st.(doc := st.doc[p.source.value := BooleanField(ParseBoolean(xmlValue))]))
      else Ok(st)
    else
      match StoreValue(p, xmlValue, fmt)
      case Err(err) => Err(err)
      case Ok(q) => Ok(st.(params := st.params[i := q]))
  }

  /** One property read back through the parameter of its name. */
  function SyncProperty(e: Element, st: SyncState, fmt: DateFormat): Result<SyncState>
    requires IsProperty(e)
  {
    match ParamIndex(AttributeValue(e, NameAttribute), st.params)
    case Err(err) => Err(err)
    case Ok(found) =>
      if |e.children| == 0 then Err(IndexOutOfBounds)
      else if found.None? then Err(NullDereference)
      else WriteBack(st, found.value, TextTrim(e.children[0].text), fmt)
  }

  function SyncNode(e: Element, st: SyncState, fmt: DateFormat): Result<SyncState> {
    if IsProperty(e) then SyncProperty(e, st, fmt) else Ok(st)
  }

  /** The state after reading back the nodes in document order. */
  function SyncNodes(nodes: seq<Element>, st: SyncState, fmt: DateFormat): Result<SyncState> {
    if |nodes| == 0 then Ok(st)
    else match SyncNode(nodes[0], st, fmt)
      case Err(e) => Err(e)
      case Ok(st') => SyncNodes(nodes[1..], st', fmt)
  }

  /** The state the caller's document and parameter objects are left in:
      the processor writes into them as it goes, so when a property fails
      the writes of the properties before it stay. */
  function SyncReached(nodes: seq<Element>, st: SyncState, fmt: DateFormat): SyncState {
    if |nodes| == 0 then st
    else match SyncNode(nodes[0], st, fmt)
      case Err(_) => st
      case Ok(st') => SyncReached(nodes[1..], st', fmt)
  }

  /** What updateDocumentFromBlob leaves: the document, and the parameter
      list it saves (None when it saves none). */
  datatype SyncOutcome = SyncOutcome(doc: Document, saved: Option<seq<TemplateInput>>)

  function Synced(blob: Blob, doc: Document, params: seq<TemplateInput>, fmt: DateFormat): Result<SyncOutcome> {
    match PropertyFile(blob.entries)
    case None => Ok(SyncOutcome(doc, None))
    case Some(c) =>
      match ParseText(c)
      case Err(e) => Err(e)
      case Ok(root) =>
        match SyncNodes(root.children, SyncState(doc, params), fmt)
        case Err(e) => Err(e)
        case Ok(st) => Ok(SyncOutcome(st.doc, Some(st.params)))
  }

  /** The document and parameters updateDocumentFromBlob leaves behind in
      the caller's objects, whether it returns or throws. */
  function LeftBehind(blob: Blob, doc: Document, params: seq<TemplateInput>, fmt: DateFormat): SyncState {
    match PropertyFile(blob.entries)
    case None => SyncState(doc, params)
    case Some(c) =>
      match ParseText(c)
      case Err(_) => SyncState(doc, params)
      case Ok(root) => SyncReached(root.children, SyncState(doc, params), fmt)
  }

  /** The body of updateDocumentFromBlob's loop for one property element. */
  method ReadBackProperty(elem: Element, adaptedDoc: Document, ps: seq<TemplateInput>, fmt: DateFormat) returns (r: Result<SyncState>)
    requires IsProperty(elem)
    ensures r == SyncProperty(elem, SyncState(adaptedDoc, ps), fmt)
  {
    var found := GetParamByName(AttributeValue(elem, NameAttribute), ps);
    if found.Err? {
      return Err(found.error);
    }
    if |elem.children| == 0 {
      return Err(IndexOutOfBounds);
    }
    var xmlValue := TextTrim(elem.children[0].text);
    if found.value.None? {
      return Err(NullDereference);
    }
    r := WriteBackValue(adaptedDoc, ps, found.value.value, xmlValue, fmt);
  }

  /** The if-chain of updateDocumentFromBlob's loop on the parameter found. */
  method WriteBackValue(adaptedDoc: Document, ps: seq<TemplateInput>, k: nat, xmlValue: string, fmt: DateFormat) returns (r: Result<SyncState>)
    requires k < |ps|
    ensures r == WriteBack(SyncState(adaptedDoc, ps), k, xmlValue, fmt)
  {
    var param := ps[k];
    if param.IsSourceValue() {
      if param.inputType == BooleanValue {
        return Ok(SyncState(adaptedDoc[param.source.value := BooleanField(ParseBoolean(xmlValue))], ps));
      }
      return Ok(SyncState(adaptedDoc, ps));
    }
    match param.inputType
    case StringValue =>
      return Ok(SyncState(adaptedDoc, ps[k := param.(stringValue := Some(xmlValue))]));
    case BooleanValue =>
      return Ok(SyncState(adaptedDoc, ps[k := param.(booleanValue := Some(ParseBoolean(xmlValue)))]));
    case DateValue =>
      var date := fmt.parse(xmlValue);
      if date.None? {
        return Err(DateParse(xmlValue));
      }
      return Ok(SyncState(adaptedDoc, ps[k := param.(dateValue := Some(date.value))]));
  }

  /** updateDocumentFromBlob: reads the custom properties of blob back into
      the parameters and the document's fields. left is what the caller's
      document and parameter objects hold afterwards, also when r is an
      error. */
  method UpdateDocumentFromBlob(blob: Blob, doc: Document, params: seq<TemplateInput>, fmt: DateFormat)
    returns (r: Result<SyncOutcome>, left: SyncState)
    ensures r == Synced(blob, doc, params, fmt)
    ensures left == LeftBehind(blob, doc, params, fmt)
    ensures PropertyFile(blob.entries).None? ==> r == Ok(SyncOutcome(doc, None)) && left == SyncState(doc, params)
  {
    left := SyncState(doc, params);
    var xmlContent := ReadPropertyFile(blob.entries);
    if xmlContent.None? {
      return Ok(SyncOutcome(doc, None)), left;
    }
    var xmlDoc := ParseText(xmlContent.value);
    if xmlDoc.Err? {
      return Err(xmlDoc.error), left;
    }
    var nodes := xmlDoc.value.children;
    var adaptedDoc := doc;
    var ps := params;
    var i := 0;
    while i < |nodes|
      invariant 0 <= i <= |nodes|
      invariant SyncNodes(nodes[i..], SyncState(adaptedDoc, ps), fmt) == SyncNodes(nodes, SyncState(doc, params), fmt)
      invariant SyncReached(nodes[i..], SyncState(adaptedDoc, ps), fmt) == SyncReached(nodes, SyncState(doc, params), fmt)
    {
      var elem := nodes[i];
      assert nodes[i..][1..] == nodes[i + 1..];
      if IsProperty(elem) {
        var next := ReadBackProperty(elem, adaptedDoc, ps, fmt);
        if next.Err? {
          return Err(next.error), SyncState(adaptedDoc, ps);
        }
        adaptedDoc, ps := next.value.doc, next.value.params;
      }
      i := i + 1;
    }
    assert nodes[i..] == [];
    return Ok(SyncOutcome(adaptedDoc, Some(ps))), SyncState(adaptedDoc, ps);
  }
}
