/** What the WordXML processor promises, proved about the functions that
    specify its operations. */
module WordXmlProperties {
  import opened TemplateTypes
  import opened Dom
  import opened Zip
  import opened WordXmlProcessor

  // ---------------------------------------------------------------------
  // Type inference

  /** The inference rules as data: (substring, type), first match wins,
      StringValue when nothing matches. */
  const TypeTable: seq<(string, InputType)> :=
    [("lpwstr", StringValue), ("filetime", DateValue), ("bool", BooleanValue)]

  function TableType(wordType: string, table: seq<(string, InputType)>): InputType {
    if |table| == 0 then StringValue
    else if Contains(wordType, table[0].0) then table[0].1
    else TableType(wordType, table[1..])
  }

  /** The processor's if-chain is the first-match lookup in TypeTable. */
  lemma {:induction false} InferTypeIsTableLookup(wordType: string)
    ensures InferType(wordType) == TableType(wordType, TypeTable)
  {
    var t1, t2, t3 := TypeTable[1..], TypeTable[2..], TypeTable[3..];
    assert t1[1..] == t2 && t2[1..] == t3 && t3 == [];
    assert TableType(wordType, t3) == StringValue;
    assert TableType(wordType, t2) == if Contains(wordType, "bool") then BooleanValue else StringValue;
    assert TableType(wordType, t1) == if Contains(wordType, "filetime") then DateValue else TableType(wordType, t2);
  }

  /** Each type, exactly when it is inferred. */
  lemma {:induction false} InferTypeFirstMatch(wordType: string)
    ensures InferType(wordType) == DateValue
            <==> !Contains(wordType, "lpwstr") && Contains(wordType, "filetime")
    ensures InferType(wordType) == BooleanValue
            <==> !Contains(wordType, "lpwstr") && !Contains(wordType, "filetime") && Contains(wordType, "bool")
    ensures InferType(wordType) == StringValue
            <==> Contains(wordType, "lpwstr") || (!Contains(wordType, "filetime") && !Contains(wordType, "bool"))
  {
  }

  /** The value tags of the variant types, an unknown tag, and an upper-case
      tag, which the case-sensitive match does not recognise. */
  lemma {:induction false} InferTypeOfTags()
    ensures InferType("lpwstr") == StringValue
    ensures InferType("filetime") == DateValue
    ensures InferType("bool") == BooleanValue
    ensures InferType("i4") == StringValue
    ensures InferType("FILETIME") == StringValue
  {
    assert OccursAt("lpwstr", "lpwstr", 0);
    assert OccursAt("filetime", "filetime", 0);
    assert OccursAt("bool", "bool", 0);
    Absent("filetime", "lpwstr", 1);
    Absent("bool", "lpwstr", 1);
    Absent("bool", "filetime", 0);
    Absent("i4", "lpwstr", 0);
    Absent("i4", "filetime", 0);
    Absent("i4", "bool", 0);
    Absent("FILETIME", "lpwstr", 0);
    Absent("FILETIME", "filetime", 0);
    Absent("FILETIME", "bool", 0);
  }

  /** s does not contain sub when some character of sub is not in s. */
  lemma {:induction false} Absent(s: string, sub: string, j: nat)
    requires j < |sub| && forall i :: 0 <= i < |s| ==> s[i] != sub[j]
    ensures !Contains(s, sub)
  {
    forall i | 0 <= i <= |s| ensures !OccursAt(s, sub, i) {
      if i + |sub| <= |s| {
        assert s[i..i + |sub|][j] == s[i + j];
      }
    }
  }

  // ---------------------------------------------------------------------
  // getParamByName

  /** The parameter at k is the first from i on named name. */
  predicate FirstNamed(params: seq<TemplateInput>, name: Option<string>, i: nat, k: nat) {
    i <= k < |params| && params[k].name.Some? && params[k].name == name
    && forall j :: i <= j < k ==> params[j].name.Some? && params[j].name != name
  }

  lemma {:induction false} ParamIndexFromFirstMatch(name: Option<string>, params: seq<TemplateInput>, i: nat)
    requires i <= |params|
    ensures match ParamIndexFrom(name, params, i)
            case Ok(Some(k)) => FirstNamed(params, name, i, k)
            case Ok(None) => forall j :: i <= j < |params| ==> params[j].name.Some? && params[j].name != name
            case Err(_) => exists k :: (i <= k < |params| && params[k].name.None?
                             && forall j :: i <= j < k ==> params[j].name.Some? && params[j].name != name)
    decreases |params| - i
  {
    if i < |params| && params[i].name.Some? && params[i].name != name {
      ParamIndexFromFirstMatch(name, params, i + 1);
      match ParamIndexFrom(name, params, i + 1)
      case Ok(Some(k)) =>
      case Ok(None) =>
      case Err(_) =>
        var k :| i + 1 <= k < |params| && params[k].name.None?
                 && forall j :: i + 1 <= j < k ==> params[j].name.Some? && params[j].name != name;
        assert forall j :: i <= j < k ==> params[j].name.Some? && params[j].name != name;
    }
  }

  /** getParamByName finds the first parameter of the given name, and finds
      nothing (null) exactly when no parameter has that name; a parameter
      with a null name before any match makes it fail. */
  lemma {:induction false} ParamIndexFirstMatch(name: Option<string>, params: seq<TemplateInput>)
    ensures match ParamIndex(name, params)
            case Ok(Some(k)) => FirstNamed(params, name, 0, k)
            case Ok(None) => forall j :: 0 <= j < |params| ==> params[j].name.Some? && params[j].name != name
            case Err(e) => e == NullDereference && exists k :: (0 <= k < |params| && params[k].name.None?
                             && forall j :: 0 <= j < k ==> params[j].name.Some? && params[j].name != name)
  {
    ParamIndexFromFirstMatch(name, params, 0);
  }

  /** The lookup reads only the names. */
  lemma {:induction false} ParamIndexFromSameNames(name: Option<string>, ps: seq<TemplateInput>, qs: seq<TemplateInput>, i: nat)
    requires |ps| == |qs| && forall j :: 0 <= j < |ps| ==> ps[j].name == qs[j].name
    ensures ParamIndexFrom(name, ps, i) == ParamIndexFrom(name, qs, i)
    decreases |ps| - i
  {
    if i < |ps| {
      ParamIndexFromSameNames(name, ps, qs, i + 1);
    }
  }

  // ---------------------------------------------------------------------
  // readPropertyFile

  /** The custom stream is the content of the first entry of that name,
      and missing exactly when no entry has that name. */
  lemma {:induction false} PropertyFileIsFirstEntry(entries: seq<Entry>)
    ensures PropertyFile(entries).None? <==> forall i :: 0 <= i < |entries| ==> entries[i].name != CustomXmlPath
    ensures PropertyFile(entries).Some? ==>
              exists i :: 0 <= i < |entries| && entries[i].name == CustomXmlPath
                && entries[i].content == PropertyFile(entries).value
                && forall j :: 0 <= j < i ==> entries[j].name != CustomXmlPath
  {
    if |entries| > 0 && entries[0].name != CustomXmlPath {
      var rest := entries[1..];
      PropertyFileIsFirstEntry(rest);
      assert forall i :: 0 <= i < |rest| ==> rest[i] == entries[i + 1];
      if PropertyFile(rest).Some? {
        var i :| 0 <= i < |rest| && rest[i].name == CustomXmlPath
                 && rest[i].content == PropertyFile(rest).value
                 && forall j :: 0 <= j < i ==> rest[j].name != CustomXmlPath;
        assert entries[i + 1] == rest[i];
        assert forall j :: 0 <= j < i + 1 ==> entries[j].name != CustomXmlPath by {
          forall j | 0 <= j < i + 1 ensures entries[j].name != CustomXmlPath {
            if j > 0 { assert entries[j] == rest[j - 1]; }
          }
        }
      }
    }
  }

  /** Reading the custom stream of any zip stream of a package gives that
      package's custom properties file. */
  lemma {:induction false} ZipsPropertyFile(blob: Blob, pkg: Package)
    requires Zips(blob, pkg)
    ensures PropertyFile(blob.entries) == if CustomXmlPath in pkg.files then Some(pkg.files[CustomXmlPath]) else None
  {
    PropertyFileIsFirstEntry(blob.entries);
    if CustomXmlPath in pkg.files {
      var i :| 0 <= i < |blob.entries| && blob.entries[i].name == CustomXmlPath;
    }
  }

  // ---------------------------------------------------------------------
  // getInitialParametersDefinition

  /** The root's children named property, in document order. */
  function Properties(nodes: seq<Element>): seq<Element> {
    if |nodes| == 0 then []
    else (if IsProperty(nodes[0]) then [nodes[0]] else []) + Properties(nodes[1..])
  }

  /** Discovery succeeds exactly when every property has a value element;
      otherwise it fails on an index out of bounds. */
  lemma {:induction false} DiscoverInputsOk(nodes: seq<Element>)
    ensures DiscoverInputs(nodes).Ok? <==> forall k :: 0 <= k < |nodes| && IsProperty(nodes[k]) ==> |nodes[k].children| > 0
    ensures DiscoverInputs(nodes).Err? ==> DiscoverInputs(nodes).error == IndexOutOfBounds
  {
    if |nodes| > 0 {
      var rest := nodes[1..];
      DiscoverInputsOk(rest);
      if !(forall k :: 0 <= k < |rest| && IsProperty(rest[k]) ==> |rest[k].children| > 0) {
        var k :| 0 <= k < |rest| && IsProperty(rest[k]) && |rest[k].children| == 0;
        assert nodes[k + 1] == rest[k];
      } else {
        assert forall k :: 1 <= k < |nodes| ==> nodes[k] == rest[k - 1];
      }
    }
  }

  /** A successful discovery yields one parameter per property, in document
      order: its name attribute, the type of its value element, no source
      and no value. Names are not de-duplicated. */
  lemma {:induction false} DiscoverInputsValues(nodes: seq<Element>)
    requires DiscoverInputs(nodes).Ok?
    ensures var ps, props := DiscoverInputs(nodes).value, Properties(nodes);
            && |ps| == |props|
            && forall k :: 0 <= k < |ps| ==>
                 && |props[k].children| > 0
                 && ps[k] == TemplateInput(AttributeValue(props[k], NameAttribute), InferType(props[k].children[0].tag),
                                           None, None, None, None)
  {
    if |nodes| > 0 {
      var rest := nodes[1..];
      DiscoverInputsValues(rest);
      var ps, props := DiscoverInputs(nodes).value, Properties(nodes);
      var ps', props' := DiscoverInputs(rest).value, Properties(rest);
      if IsProperty(nodes[0]) {
        assert ps == [UnboundInput(nodes[0])] + ps';
        assert props == [nodes[0]] + props';
        forall k | 1 <= k < |ps| ensures ps[k] == ps'[k - 1] && props[k] == props'[k - 1] {
        }
      } else {
        assert ps == ps';
        assert props == [] + props' == props';
      }
    }
  }

  /** The position among the properties of the property at index k. */
  function PropertyRank(nodes: seq<Element>, k: nat): nat
    requires k <= |nodes|
  {
    |Properties(nodes[..k])|
  }

  lemma {:induction false} PropertiesAppend(nodes: seq<Element>, e: Element)
    ensures Properties(nodes + [e]) == Properties(nodes) + (if IsProperty(e) then [e] else [])
  {
    if |nodes| > 0 {
      assert (nodes + [e])[1..] == nodes[1..] + [e];
      PropertiesAppend(nodes[1..], e);
    } else {
      assert [e][1..] == [];
    }
  }

  lemma {:induction false} PropertiesSplit(a: seq<Element>, b: seq<Element>)
    ensures Properties(a + b) == Properties(a) + Properties(b)
  {
    if |a| > 0 {
      assert (a + b)[1..] == a[1..] + b;
      PropertiesSplit(a[1..], b);
    } else {
      assert a + b == b;
    }
  }

  /** A property stands among the properties at its rank. */
  lemma {:induction false} PropertyAtRank(nodes: seq<Element>, k: nat)
    requires k < |nodes| && IsProperty(nodes[k])
    ensures PropertyRank(nodes, k) < |Properties(nodes)|
    ensures Properties(nodes)[PropertyRank(nodes, k)] == nodes[k]
  {
    assert nodes == nodes[..k] + [nodes[k]] + nodes[k + 1..];
    PropertiesSplit(nodes[..k] + [nodes[k]], nodes[k + 1..]);
    PropertiesAppend(nodes[..k], nodes[k]);
  }

  /** With discovered parameters, the lookup of render and reverse sync
      finds a parameter for every property, provided every property has a
      name attribute. */
  lemma {:induction false} DiscoveredInputsCoverProperties(nodes: seq<Element>, ps: seq<TemplateInput>, k: nat)
    requires DiscoverInputs(nodes) == Ok(ps)
    requires forall j :: 0 <= j < |nodes| && IsProperty(nodes[j]) ==> NameAttribute in nodes[j].attrs
    requires k < |nodes| && IsProperty(nodes[k])
    ensures ParamIndex(AttributeValue(nodes[k], NameAttribute), ps).Ok?
    ensures ParamIndex(AttributeValue(nodes[k], NameAttribute), ps).value.Some?
  {
    DiscoverInputsValues(nodes);
    var props := Properties(nodes);
    PropertyAtRank(nodes, k);
    var m := PropertyRank(nodes, k);
    var name := AttributeValue(nodes[k], NameAttribute);
    assert ps[m].name == name;
    PropertiesAreProperties(nodes);
    forall j | 0 <= j < |ps| ensures ps[j].name.Some? {
      PropertiesAreNamed(nodes, j);
    }
    ParamIndexFirstMatch(name, ps);
  }

  lemma {:induction false} PropertiesAreProperties(nodes: seq<Element>)
    ensures forall m :: 0 <= m < |Properties(nodes)| ==> IsProperty(Properties(nodes)[m])
  {
    if |nodes| > 0 {
      PropertiesAreProperties(nodes[1..]);
    }
  }

  lemma {:induction false} PropertiesAreNamed(nodes: seq<Element>, m: nat)
    requires forall j :: 0 <= j < |nodes| && IsProperty(nodes[j]) ==> NameAttribute in nodes[j].attrs
    requires m < |Properties(nodes)|
    ensures NameAttribute in Properties(nodes)[m].attrs
  {
    var rest := nodes[1..];
    assert forall j :: 0 <= j < |rest| ==> rest[j] == nodes[j + 1];
    if IsProperty(nodes[0]) && m == 0 {
    } else {
      PropertiesAreNamed(rest, if IsProperty(nodes[0]) then m - 1 else m);
    }
  }

  // ---------------------------------------------------------------------
  // renderTemplate

  /** Rendering succeeds exactly when every node renders, and then yields
      one node per node. */
  lemma {:induction false} RenderNodesEach(nodes: seq<Element>, params: seq<TemplateInput>, doc: Document, fmt: DateFormat)
    ensures RenderNodes(nodes, params, doc, fmt).Ok?
            <==> forall k :: 0 <= k < |nodes| ==> RenderNode(nodes[k], params, doc, fmt).Ok?
    ensures RenderNodes(nodes, params, doc, fmt).Ok? ==>
              var out := RenderNodes(nodes, params, doc, fmt).value;
              |out| == |nodes| && forall k :: 0 <= k < |nodes| ==> RenderNode(nodes[k], params, doc, fmt) == Ok(out[k])
  {
    if |nodes| > 0 {
      var rest := nodes[1..];
      RenderNodesEach(rest, params, doc, fmt);
      assert forall k :: 0 <= k < |rest| ==> rest[k] == nodes[k + 1];
      if RenderNodes(nodes, params, doc, fmt).Ok? {
        var out := RenderNodes(nodes, params, doc, fmt).value;
        assert out == [RenderNode(nodes[0], params, doc, fmt).value] + RenderNodes(rest, params, doc, fmt).value;
      }
      if !RenderNode(nodes[0], params, doc, fmt).Ok? {
      } else if !RenderNodes(rest, params, doc, fmt).Ok? {
        var k :| 0 <= k < |rest| && !RenderNode(rest[k], params, doc, fmt).Ok?;
        assert !RenderNode(nodes[k + 1], params, doc, fmt).Ok?;
      }
    }
  }

  /** A property renders exactly when a parameter of its name is found, it
      has a value element, and the parameter's text can be produced. A
      property without a parameter therefore makes rendering fail. */
  predicate Renderable(e: Element, params: seq<TemplateInput>, doc: Document, fmt: DateFormat) {
    IsProperty(e) ==>
      var found := ParamIndex(AttributeValue(e, NameAttribute), params);
      && found.Ok? && found.value.Some? && |e.children| > 0
      && RenderValueText(params[found.value.value], doc, fmt).Ok?
  }

  lemma {:induction false} RenderNodeOk(e: Element, params: seq<TemplateInput>, doc: Document, fmt: DateFormat)
    ensures RenderNode(e, params, doc, fmt).Ok? <==> Renderable(e, params, doc, fmt)
  {
  }

  /** Neither render nor reverse sync checks the lookup's result: a property
      with a value element and no parameter of its name fails on null. */
  lemma {:induction false} UnmatchedPropertyFails(e: Element, st: SyncState, fmt: DateFormat)
    requires IsProperty(e) && |e.children| > 0
    requires ParamIndex(AttributeValue(e, NameAttribute), st.params) == Ok(None)
    ensures RenderNode(e, st.params, st.doc, fmt) == Err(NullDereference)
    ensures SyncNode(e, st, fmt) == Err(NullDereference)
  {
  }

  /** The custom properties root of the unzipped template, when there is one. */
  predicate HasCustomRoot(template: Blob, root: Element) {
    var files := Unzip(template.entries);
    CustomXmlPath in files && files[CustomXmlPath] == Xml(root)
  }

  /** Rendering fails unless the template has a parsable custom properties
      file; with one, it succeeds exactly when every property renders. */
  lemma {:induction false} RenderedPackageOk(template: Blob, params: seq<TemplateInput>, doc: Document, fmt: DateFormat)
    ensures RenderedPackage(template, params, doc, fmt).Ok? <==>
              exists root :: HasCustomRoot(template, root)
                && forall k :: 0 <= k < |root.children| ==> Renderable(root.children[k], params, doc, fmt)
  {
    var files := Unzip(template.entries);
    if CustomXmlPath in files && files[CustomXmlPath].Xml? {
      var root := files[CustomXmlPath].root;
      assert HasCustomRoot(template, root);
      RenderNodesEach(root.children, params, doc, fmt);
      forall k | 0 <= k < |root.children|
        ensures RenderNode(root.children[k], params, doc, fmt).Ok? <==> Renderable(root.children[k], params, doc, fmt)
      {
        RenderNodeOk(root.children[k], params, doc, fmt);
      }
    }
  }

  /** e' is e with at most the text of its first child changed. */
  predicate SameExceptValueText(e: Element, e': Element) {
    && e'.tag == e.tag && e'.attrs == e.attrs && e'.text == e.text
    && |e'.children| == |e.children|
    && (|e.children| > 0 ==>
          && e'.children[0].tag == e.children[0].tag
          && e'.children[0].attrs == e.children[0].attrs
          && e'.children[0].children == e.children[0].children
          && e'.children[1..] == e.children[1..])
  }

  /** What a rendered node is: a non-property stays as it is; a property
      keeps everything but its value element's text, which becomes the text
      of the first parameter of its name. */
  lemma {:induction false} RenderNodeResult(e: Element, params: seq<TemplateInput>, doc: Document, fmt: DateFormat)
    requires RenderNode(e, params, doc, fmt).Ok?
    ensures var e' := RenderNode(e, params, doc, fmt).value;
            && (!IsProperty(e) ==> e' == e)
            && (IsProperty(e) ==>
                  && SameExceptValueText(e, e') && |e.children| > 0
                  && exists i :: && ParamIndex(AttributeValue(e, NameAttribute), params) == Ok(Some(i))
                                 && i < |params|
                                 && Ok(e'.children[0].text) == RenderValueText(params[i], doc, fmt))
  {
    if IsProperty(e) {
      var e' := RenderNode(e, params, doc, fmt).value;
      var i := ParamIndex(AttributeValue(e, NameAttribute), params).value.value;
      assert e'.children[1..] == e.children[1..];
    }
  }

  /** The rendered package keeps the template's file name and every member
      but the custom properties file as it was; in that file only the value
      texts of the properties change, each to its parameter's text. */
  lemma {:induction false} RenderedPackagePreserves(template: Blob, params: seq<TemplateInput>, doc: Document, fmt: DateFormat, root: Element)
    requires HasCustomRoot(template, root)
    requires RenderedPackage(template, params, doc, fmt).Ok?
    ensures var pkg, files := RenderedPackage(template, params, doc, fmt).value, Unzip(template.entries);
            && pkg.filename == template.filename
            && pkg.files.Keys == files.Keys
            && (forall p :: p in files && p != CustomXmlPath ==> pkg.files[p] == files[p])
            && pkg.files[CustomXmlPath].Xml?
            && var root' := pkg.files[CustomXmlPath].root;
               && root'.tag == root.tag && root'.attrs == root.attrs && root'.text == root.text
               && |root'.children| == |root.children|
               && forall k :: 0 <= k < |root.children| ==> RenderNode(root.children[k], params, doc, fmt) == Ok(root'.children[k])
  {
    RenderNodesEach(root.children, params, doc, fmt);
  }

  /** new Boolean(s) is true exactly for "true" in any case. */
  lemma {:induction false} ParseBooleanExamples()
    ensures ParseBoolean("true") && ParseBoolean("TRUE") && ParseBoolean("TrUe")
    ensures !ParseBoolean("false") && !ParseBoolean("yes") && !ParseBoolean("maybe") && !ParseBoolean("1") && !ParseBoolean("")
    ensures !ParseBoolean("true ") && !ParseBoolean("truth")
  {
  }

  /** The value text of a static Boolean parameter reads back as its value. */
  lemma {:induction false} BooleanTextRoundTrip(b: bool)
    ensures TextTrim(BooleanToString(b)) == BooleanToString(b)
    ensures ParseBoolean(TextTrim(BooleanToString(b))) == b
  {
    NormalTextIsFixed(BooleanToString(b));
  }

  // ---------------------------------------------------------------------
  // updateDocumentFromBlob

  /** q is p with at most its value of p's type changed. */
  predicate SameExceptSlot(p: TemplateInput, q: TemplateInput) {
    && q.name == p.name && q.inputType == p.inputType && q.source == p.source
    && (p.inputType != StringValue ==> q.stringValue == p.stringValue)
    && (p.inputType != BooleanValue ==> q.booleanValue == p.booleanValue)
    && (p.inputType != DateValue ==> q.dateValue == p.dateValue)
  }

  /** Some source-linked Boolean parameter reads field f. */
  predicate IsBooleanSource(params: seq<TemplateInput>, f: string) {
    exists i :: 0 <= i < |params| && params[i].source == Some(f) && params[i].inputType == BooleanValue
  }

  /** Node e is a property the lookup resolves to parameter i. */
  predicate ResolvesTo(e: Element, params: seq<TemplateInput>, i: nat) {
    IsProperty(e) && ParamIndex(AttributeValue(e, NameAttribute), params) == Ok(Some(i))
  }

  /** The parameters keep their order, names, types and sources, at most
      the value of each one's type changes, and source-linked parameters do
      not change. */
  predicate SameShape(ps: seq<TemplateInput>, qs: seq<TemplateInput>) {
    && |qs| == |ps|
    && (forall i :: 0 <= i < |ps| ==> SameExceptSlot(ps[i], qs[i]))
    && (forall i :: 0 <= i < |ps| && ps[i].IsSourceValue() ==> qs[i] == ps[i])
  }

  /** The invariant of reading back: the parameters keep their shape, and
      the document only gains or changes fields that a source-linked
      Boolean parameter reads, and then to a Boolean. */
  predicate SyncInvariant(st: SyncState, st': SyncState) {
    && SameShape(st.params, st'.params)
    && st.doc.Keys <= st'.doc.Keys
    && (forall f :: f in st'.doc ==>
          (f in st.doc && st'.doc[f] == st.doc[f]) || (st'.doc[f].BooleanField? && IsBooleanSource(st.params, f)))
  }

  lemma {:induction false} WriteBackShape(st: SyncState, i: nat, xmlValue: string, fmt: DateFormat)
    requires i < |st.params| && WriteBack(st, i, xmlValue, fmt).Ok?
    ensures SameShape(st.params, WriteBack(st, i, xmlValue, fmt).value.params)
  {
    var p := st.params[i];
    if p.IsSourceValue() {
      SameShapeRefl(st.params);
    } else {
      var q := StoreValue(p, xmlValue, fmt).value;
      assert SameExceptSlot(p, q);
      SameShapeUpdate(st.params, i, q);
    }
  }

  lemma {:induction false} SyncNodeShape(e: Element, st: SyncState, fmt: DateFormat)
    requires SyncNode(e, st, fmt).Ok?
    ensures SameShape(st.params, SyncNode(e, st, fmt).value.params)
  {
    if IsProperty(e) {
      var i := ParamIndex(AttributeValue(e, NameAttribute), st.params).value.value;
      var xmlValue := TextTrim(e.children[0].text);
      assert SyncNode(e, st, fmt) == WriteBack(st, i, xmlValue, fmt);
      WriteBackShape(st, i, xmlValue, fmt);
    } else {
      SameShapeRefl(st.params);
    }
  }

  lemma {:induction false} SameShapeRefl(ps: seq<TemplateInput>)
    ensures SameShape(ps, ps)
  {
    forall i | 0 <= i < |ps| ensures SameExceptSlot(ps[i], ps[i]) {
    }
  }

  lemma {:induction false} SameShapeUpdate(ps: seq<TemplateInput>, i: nat, q: TemplateInput)
    requires i < |ps| && !ps[i].IsSourceValue() && SameExceptSlot(ps[i], q)
    ensures SameShape(ps, ps[i := q])
  {
    var qs := ps[i := q];
    forall j | 0 <= j < |ps| ensures SameExceptSlot(ps[j], qs[j]) {
      if j != i { assert qs[j] == ps[j]; }
    }
  }

  lemma {:induction false} SyncNodeInvariant(e: Element, st: SyncState, fmt: DateFormat)
    requires SyncNode(e, st, fmt).Ok?
    ensures SyncInvariant(st, SyncNode(e, st, fmt).value)
  {
    SyncNodeShape(e, st, fmt);
    if IsProperty(e) {
      var i := ParamIndex(AttributeValue(e, NameAttribute), st.params).value.value;
      var p := st.params[i];
      if p.IsSourceValue() && p.inputType == BooleanValue {
        assert IsBooleanSource(st.params, p.source.value);
      }
    }
  }

  lemma {:induction false} SyncInvariantTransitive(st0: SyncState, st1: SyncState, st2: SyncState)
    requires SyncInvariant(st0, st1) && SyncInvariant(st1, st2)
    ensures SyncInvariant(st0, st2)
  {
    forall f | f in st2.doc && !(f in st0.doc && st2.doc[f] == st0.doc[f])
      ensures st2.doc[f].BooleanField? && IsBooleanSource(st0.params, f)
    {
      if IsBooleanSource(st1.params, f) {
        var i :| 0 <= i < |st1.params| && st1.params[i].source == Some(f) && st1.params[i].inputType == BooleanValue;
        assert st0.params[i].source == Some(f) && st0.params[i].inputType == BooleanValue;
      }
    }
  }

  lemma {:induction false} SyncNodesInvariant(nodes: seq<Element>, st: SyncState, fmt: DateFormat)
    requires SyncNodes(nodes, st, fmt).Ok?
    ensures SyncInvariant(st, SyncNodes(nodes, st, fmt).value)
  {
    if |nodes| > 0 {
      var st' := SyncNode(nodes[0], st, fmt).value;
      SyncNodeInvariant(nodes[0], st, fmt);
      SyncNodesInvariant(nodes[1..], st', fmt);
      SyncInvariantTransitive(st, st', SyncNodes(nodes, st, fmt).value);
    } else {
      assert SyncNodes(nodes, st, fmt).value == st;
    }
  }

  lemma {:induction false} SameShapeKeepsLookup(ps: seq<TemplateInput>, qs: seq<TemplateInput>, e: Element, i: nat)
    requires SameShape(ps, qs)
    ensures ResolvesTo(e, qs, i) <==> ResolvesTo(e, ps, i)
  {
    ParamIndexFromSameNames(AttributeValue(e, NameAttribute), ps, qs, 0);
  }

  /** A parameter no property resolves to is left as it was. */
  lemma {:induction false} SyncNodesUntouched(nodes: seq<Element>, st: SyncState, fmt: DateFormat, i: nat)
    requires SyncNodes(nodes, st, fmt).Ok? && i < |st.params|
    requires forall k :: 0 <= k < |nodes| ==> !ResolvesTo(nodes[k], st.params, i)
    ensures |SyncNodes(nodes, st, fmt).value.params| == |st.params|
    ensures SyncNodes(nodes, st, fmt).value.params[i] == st.params[i]
  {
    if |nodes| > 0 {
      var rest := nodes[1..];
      var st' := SyncNode(nodes[0], st, fmt).value;
      assert SyncNodes(nodes, st, fmt) == SyncNodes(rest, st', fmt);
      SyncNodeShape(nodes[0], st, fmt);
      SyncNodeUntouched(nodes[0], st, fmt, i);
      ResolvesAfterStep(nodes, st.params, st'.params, i);
      SyncNodesUntouched(rest, st', fmt, i);
    } else {
      assert SyncNodes(nodes, st, fmt).value == st;
    }
  }

  lemma {:induction false} SyncNodeUntouched(e: Element, st: SyncState, fmt: DateFormat, i: nat)
    requires SyncNode(e, st, fmt).Ok? && i < |st.params|
    requires !ResolvesTo(e, st.params, i)
    ensures |SyncNode(e, st, fmt).value.params| == |st.params|
    ensures SyncNode(e, st, fmt).value.params[i] == st.params[i]
  {
    SyncNodeShape(e, st, fmt);
    if IsProperty(e) {
      var k := ParamIndex(AttributeValue(e, NameAttribute), st.params).value.value;
      var xmlValue := TextTrim(e.children[0].text);
      assert SyncNode(e, st, fmt) == WriteBack(st, k, xmlValue, fmt);
      WriteBackUntouched(st, k, xmlValue, fmt, i);
    }
  }

  lemma {:induction false} WriteBackUntouched(st: SyncState, k: nat, xmlValue: string, fmt: DateFormat, i: nat)
    requires k < |st.params| && i < |st.params| && k != i && WriteBack(st, k, xmlValue, fmt).Ok?
    ensures WriteBack(st, k, xmlValue, fmt).value.params[i] == st.params[i]
  {
    WriteBackShape(st, k, xmlValue, fmt);
  }


  /** Storing into a parameter depends only on what the store keeps. */
  lemma {:induction false} StoreValueSameExceptSlot(p: TemplateInput, q: TemplateInput, text: string, fmt: DateFormat)
    requires SameExceptSlot(p, q)
    ensures StoreValue(q, text, fmt) == StoreValue(p, text, fmt)
  {
  }

  /** A property that resolves to a static parameter stores its value text
      into it. */
  lemma {:induction false} SyncNodeStores(e: Element, st: SyncState, fmt: DateFormat, i: nat)
    requires SyncNode(e, st, fmt).Ok? && i < |st.params| && !st.params[i].IsSourceValue()
    requires ResolvesTo(e, st.params, i)
    ensures |e.children| > 0 && |SyncNode(e, st, fmt).value.params| == |st.params|
    ensures StoreValue(st.params[i], TextTrim(e.children[0].text), fmt) == Ok(SyncNode(e, st, fmt).value.params[i])
  {
  }

  /** When several properties resolve to one static parameter, the last of
      them sets its value. */
  lemma {:induction false} SyncNodesLastWins(nodes: seq<Element>, st: SyncState, fmt: DateFormat, i: nat, k: nat)
    requires SyncNodes(nodes, st, fmt).Ok? && i < |st.params| && !st.params[i].IsSourceValue()
    requires k < |nodes| && ResolvesTo(nodes[k], st.params, i)
    requires forall j :: k < j < |nodes| ==> !ResolvesTo(nodes[j], st.params, i)
    ensures |nodes[k].children| > 0 && |SyncNodes(nodes, st, fmt).value.params| == |st.params|
    ensures StoreValue(st.params[i], TextTrim(nodes[k].children[0].text), fmt)
            == Ok(SyncNodes(nodes, st, fmt).value.params[i])
  {
    var rest := nodes[1..];
    var st' := SyncNode(nodes[0], st, fmt).value;
    assert SyncNodes(nodes, st, fmt) == SyncNodes(rest, st', fmt);
    SyncNodeShape(nodes[0], st, fmt);
    ResolvesAfterStep(nodes, st.params, st'.params, i);
    if k == 0 {
      SyncNodeStores(nodes[0], st, fmt, i);
      SyncNodesUntouched(rest, st', fmt, i);
    } else {
      SyncNodesLastWins(rest, st', fmt, i, k - 1);
      StoreValueSameExceptSlot(st.params[i], st'.params[i], TextTrim(rest[k - 1].children[0].text), fmt);
    }
  }

  /** The lookup of the remaining nodes is the same after a step that keeps
      the parameters' shape. */
  lemma {:induction false} ResolvesAfterStep(nodes: seq<Element>, ps: seq<TemplateInput>, qs: seq<TemplateInput>, i: nat)
    requires |nodes| > 0 && SameShape(ps, qs)
    ensures forall j :: 0 <= j < |nodes[1..]| ==> (ResolvesTo(nodes[1..][j], qs, i) <==> ResolvesTo(nodes[j + 1], ps, i))
  {
    forall j | 0 <= j < |nodes[1..]| ensures ResolvesTo(nodes[1..][j], qs, i) <==> ResolvesTo(nodes[j + 1], ps, i) {
      SameShapeKeepsLookup(ps, qs, nodes[1..][j], i);
      assert nodes[1..][j] == nodes[j + 1];
    }
  }

  /** Reading back a package without custom properties changes nothing and
      saves nothing; otherwise the parameters are saved, each keeping its
      name, type and source. */
  lemma {:induction false} SyncedOutcome(blob: Blob, doc: Document, params: seq<TemplateInput>, fmt: DateFormat)
    requires Synced(blob, doc, params, fmt).Ok?
    ensures var out := Synced(blob, doc, params, fmt).value;
            && (out.saved.None? <==> PropertyFile(blob.entries).None?)
            && (out.saved.None? ==> out.doc == doc)
            && (out.saved.Some? ==> SyncInvariant(SyncState(doc, params), SyncState(out.doc, out.saved.value)))
  {
    if PropertyFile(blob.entries).Some? {
      var root := ParseText(PropertyFile(blob.entries).value).value;
      SyncNodesInvariant(root.children, SyncState(doc, params), fmt);
    }
  }

  /** For source-linked parameters the String and Date write-back branches
      never fire: when no source-linked parameter is a Boolean, reading
      back leaves the document as it was. */
  lemma {:induction false} SyncedWritesOnlyBooleanSources(blob: Blob, doc: Document, params: seq<TemplateInput>, fmt: DateFormat)
    requires Synced(blob, doc, params, fmt).Ok?
    requires forall i :: 0 <= i < |params| && params[i].IsSourceValue() ==> params[i].inputType != BooleanValue
    ensures Synced(blob, doc, params, fmt).value.doc == doc
  {
    SyncedOutcome(blob, doc, params, fmt);
    var out := Synced(blob, doc, params, fmt).value;
    if out.saved.Some? {
      assert forall f :: !IsBooleanSource(params, f);
    }
  }

  /** When reading back succeeds, the caller's objects hold its result. */
  lemma {:induction false} SyncReachedOnSuccess(nodes: seq<Element>, st: SyncState, fmt: DateFormat)
    requires SyncNodes(nodes, st, fmt).Ok?
    ensures SyncReached(nodes, st, fmt) == SyncNodes(nodes, st, fmt).value
  {
    if |nodes| > 0 {
      SyncReachedOnSuccess(nodes[1..], SyncNode(nodes[0], st, fmt).value, fmt);
    }
  }

  /** When reading back fails, the caller's objects hold the writes of the
      nodes before the first failing one, and nothing after it. */
  lemma {:induction false} SyncReachedOnFailure(nodes: seq<Element>, st: SyncState, fmt: DateFormat)
    requires SyncNodes(nodes, st, fmt).Err?
    ensures exists k :: 0 <= k < |nodes| && SyncNodes(nodes[..k], st, fmt) == Ok(SyncReached(nodes, st, fmt))
                        && SyncNode(nodes[k], SyncReached(nodes, st, fmt), fmt).Err?
                        && SyncNodes(nodes, st, fmt).error == SyncNode(nodes[k], SyncReached(nodes, st, fmt), fmt).error
  {
    assert nodes[..0] == [];
    match SyncNode(nodes[0], st, fmt)
    case Err(_) =>
      assert SyncNodes(nodes[..0], st, fmt) == Ok(st);
    case Ok(st') =>
      var rest := nodes[1..];
      SyncReachedOnFailure(rest, st', fmt);
      var k :| 0 <= k < |rest| && SyncNodes(rest[..k], st', fmt) == Ok(SyncReached(rest, st', fmt))
               && SyncNode(rest[k], SyncReached(rest, st', fmt), fmt).Err?
               && SyncNodes(rest, st', fmt).error == SyncNode(rest[k], SyncReached(rest, st', fmt), fmt).error;
      SyncPrefixStep(nodes, st, fmt, k);
  }

  /** Reading back a prefix of k + 1 nodes is reading back the first node,
      then the prefix of k of the rest. */
  lemma {:induction false} SyncPrefixStep(nodes: seq<Element>, st: SyncState, fmt: DateFormat, k: nat)
    requires k < |nodes| - 1 && SyncNode(nodes[0], st, fmt).Ok?
    ensures SyncNodes(nodes[..k + 1], st, fmt) == SyncNodes(nodes[1..][..k], SyncNode(nodes[0], st, fmt).value, fmt)
    ensures nodes[k + 1] == nodes[1..][k]
  {
    var p := nodes[..k + 1];
    assert p[0] == nodes[0];
    assert p[1..] == nodes[1..][..k];
  }

  /** The writes made before a failure keep the sync invariant. */
  lemma {:induction false} SyncReachedInvariant(nodes: seq<Element>, st: SyncState, fmt: DateFormat)
    ensures SyncInvariant(st, SyncReached(nodes, st, fmt))
  {
    if |nodes| > 0 && SyncNode(nodes[0], st, fmt).Ok? {
      var st' := SyncNode(nodes[0], st, fmt).value;
      SyncNodeInvariant(nodes[0], st, fmt);
      SyncReachedInvariant(nodes[1..], st', fmt);
      SyncInvariantTransitive(st, st', SyncReached(nodes, st, fmt));
    } else {
      SameShapeRefl(st.params);
    }
  }

  /** What updateDocumentFromBlob leaves in the caller's objects: with no
      custom stream, or one that does not parse, nothing changes; when the
      call returns, its result; in every case, also after a failing
      property, the sync invariant holds. */
  lemma {:induction false} LeftBehindOutcome(blob: Blob, doc: Document, params: seq<TemplateInput>, fmt: DateFormat)
    ensures SyncInvariant(SyncState(doc, params), LeftBehind(blob, doc, params, fmt))
    ensures PropertyFile(blob.entries).None? ==> LeftBehind(blob, doc, params, fmt) == SyncState(doc, params)
    ensures Synced(blob, doc, params, fmt).Ok? && Synced(blob, doc, params, fmt).value.saved.Some? ==>
              LeftBehind(blob, doc, params, fmt)
              == SyncState(Synced(blob, doc, params, fmt).value.doc, Synced(blob, doc, params, fmt).value.saved.value)
  {
    var st := SyncState(doc, params);
    match PropertyFile(blob.entries)
    case None => SameShapeRefl(params);
    case Some(c) =>
      match ParseText(c)
      case Err(_) => SameShapeRefl(params);
      case Ok(root) =>
        SyncReachedInvariant(root.children, st, fmt);
        if SyncNodes(root.children, st, fmt).Ok? {
          SyncReachedOnSuccess(root.children, st, fmt);
        }
  }

  // ---------------------------------------------------------------------
  // Render, then read back

  /** A parameter whose rendered text reads back as what it was: a static
      parameter whose value is set (normal text for a string, and a date
      the format's parse gives back after getTextTrim), or a source-linked
      one whose field is left alone or already holds a Boolean. */
  predicate RoundTrips(p: TemplateInput, doc: Document, fmt: DateFormat) {
    if p.IsSourceValue() then
      p.inputType == BooleanValue ==> p.source.value in doc && doc[p.source.value].BooleanField?
    else match p.inputType
      case StringValue => p.stringValue.Some? && IsNormalText(p.stringValue.value)
      case BooleanValue => p.booleanValue.Some?
      case DateValue => p.dateValue.Some? && fmt.parse(TextTrim(fmt.format(p.dateValue.value))) == Some(p.dateValue.value)
  }

  /** The value text a static parameter renders to stores back as the
      parameter itself. */
  lemma {:induction false} StoreRenderedValue(p: TemplateInput, doc: Document, fmt: DateFormat)
    requires !p.IsSourceValue() && RoundTrips(p, doc, fmt)
    ensures RenderValueText(p, doc, fmt).Ok?
    ensures StoreValue(p, TextTrim(RenderValueText(p, doc, fmt).value), fmt) == Ok(p)
  {
    match p.inputType
    case StringValue => StoreRenderedString(p, doc, fmt);
    case BooleanValue => StoreRenderedBoolean(p, doc, fmt);
    case DateValue =>
  }

  lemma {:induction false} StoreRenderedString(p: TemplateInput, doc: Document, fmt: DateFormat)
    requires !p.IsSourceValue() && p.inputType == StringValue && RoundTrips(p, doc, fmt)
    ensures RenderValueText(p, doc, fmt) == Ok(p.stringValue.value)
    ensures StoreValue(p, TextTrim(p.stringValue.value), fmt) == Ok(p)
  {
    NormalTextIsFixed(p.stringValue.value);
  }

  lemma {:induction false} StoreRenderedBoolean(p: TemplateInput, doc: Document, fmt: DateFormat)
    requires !p.IsSourceValue() && p.inputType == BooleanValue && RoundTrips(p, doc, fmt)
    ensures RenderValueText(p, doc, fmt) == Ok(BooleanToString(p.booleanValue.value))
    ensures StoreValue(p, TextTrim(BooleanToString(p.booleanValue.value)), fmt) == Ok(p)
  {
    BooleanTextRoundTrip(p.booleanValue.value);
  }

  lemma {:induction false} WriteBackRendered(st: SyncState, i: nat, fmt: DateFormat)
    requires i < |st.params| && RoundTrips(st.params[i], st.doc, fmt)
    ensures RenderValueText(st.params[i], st.doc, fmt).Ok?
    ensures WriteBack(st, i, TextTrim(RenderValueText(st.params[i], st.doc, fmt).value), fmt) == Ok(st)
  {
    var p := st.params[i];
    if p.IsSourceValue() {
      if p.inputType == BooleanValue {
        WriteBackRenderedSource(st, i, fmt);
      }
    } else {
      StoreRenderedValue(p, st.doc, fmt);
      var text := TextTrim(RenderValueText(p, st.doc, fmt).value);
      assert WriteBack(st, i, text, fmt) == Ok(st.(params := st.params[i := p]));
      UpdateWithSame(st.params, i);
    }
  }

  lemma {:induction false} UpdateWithSame<T>(xs: seq<T>, i: nat)
    requires i < |xs|
    ensures xs[i := xs[i]] == xs
  {
  }

  lemma {:induction false} UpdateMapWithSame<K, V>(m: map<K, V>, k: K)
    requires k in m
    ensures m[k := m[k]] == m
  {
  }

  lemma {:induction false} WriteBackRenderedSource(st: SyncState, i: nat, fmt: DateFormat)
    requires i < |st.params| && RoundTrips(st.params[i], st.doc, fmt)
    requires st.params[i].IsSourceValue() && st.params[i].inputType == BooleanValue
    ensures RenderValueText(st.params[i], st.doc, fmt).Ok?
    ensures WriteBack(st, i, TextTrim(RenderValueText(st.params[i], st.doc, fmt).value), fmt) == Ok(st)
  {
    var f := st.params[i].source.value;
    var b := st.doc[f].b;
    var text := BooleanToString(b);
    assert RenderValueText(st.params[i], st.doc, fmt) == Ok(text);
    BooleanTextRoundTrip(b);
    var x := TextTrim(text);
    assert ParseBoolean(x) == b;
    assert WriteBack(st, i, x, fmt) == Ok(st.(doc := st.doc[f := BooleanField(b)]));
    UpdateMapWithSame(st.doc, f);
  }

  lemma {:induction false} SyncRenderedNode(e: Element, st: SyncState, fmt: DateFormat)
    requires RenderNode(e, st.params, st.doc, fmt).Ok?
    requires forall i :: 0 <= i < |st.params| ==> RoundTrips(st.params[i], st.doc, fmt)
    ensures SyncNode(RenderNode(e, st.params, st.doc, fmt).value, st, fmt) == Ok(st)
  {
    if IsProperty(e) {
      var e' := RenderNode(e, st.params, st.doc, fmt).value;
      var i := ParamIndex(AttributeValue(e, NameAttribute), st.params).value.value;
      assert AttributeValue(e', NameAttribute) == AttributeValue(e, NameAttribute);
      WriteBackRendered(st, i, fmt);
    }
  }

  lemma {:induction false} SyncRenderedNodes(nodes: seq<Element>, out: seq<Element>, st: SyncState, fmt: DateFormat)
    requires |out| == |nodes|
    requires forall k :: 0 <= k < |nodes| ==> RenderNode(nodes[k], st.params, st.doc, fmt) == Ok(out[k])
    requires forall i :: 0 <= i < |st.params| ==> RoundTrips(st.params[i], st.doc, fmt)
    ensures SyncNodes(out, st, fmt) == Ok(st)
  {
    if |nodes| > 0 {
      SyncRenderedNode(nodes[0], st, fmt);
      SyncRenderedNodes(nodes[1..], out[1..], st, fmt);
    }
  }

  /** Reading back any zip stream of a rendered package gives every
      parameter and the document back as they were, and saves the
      parameters. */
  lemma {:induction false} RenderThenSync(template: Blob, params: seq<TemplateInput>, doc: Document, fmt: DateFormat, rendered: Blob)
    requires RenderedPackage(template, params, doc, fmt).Ok?
    requires Zips(rendered, RenderedPackage(template, params, doc, fmt).value)
    requires forall i :: 0 <= i < |params| ==> RoundTrips(params[i], doc, fmt)
    ensures Synced(rendered, doc, params, fmt) == Ok(SyncOutcome(doc, Some(params)))
  {
    var pkg := RenderedPackage(template, params, doc, fmt).value;
    var root := Unzip(template.entries)[CustomXmlPath].root;
    var out := RenderNodes(root.children, params, doc, fmt).value;
    ZipsPropertyFile(rendered, pkg);
    assert PropertyFile(rendered.entries) == Some(Xml(root.(children := out)));
    RenderNodesEach(root.children, params, doc, fmt);
    SyncRenderedNodes(root.children, out, SyncState(doc, params), fmt);
  }

  // ---------------------------------------------------------------------
  // A worked example: one text property "Author"

  const AuthorProperty := Element("property", map[NameAttribute := "Author"], [Element("lpwstr", map[], [], "TBD")], "")
  const AuthorRoot := Element("Properties", map[], [AuthorProperty], "")
  const AuthorTemplate := Blob("report.docx", [Entry("word/document.xml", Raw("body")), Entry(CustomXmlPath, Xml(AuthorRoot))])

  /** Discovery finds one text parameter "Author"; bound to "Jane Doe" it
      renders that text into the property and nowhere else, and reading the
      rendered package back gives the same parameter. */
  lemma {:induction false} AuthorScenario(fmt: DateFormat, rendered: Blob)
    ensures InitialParameters(AuthorTemplate) == Ok([TemplateInput(Some("Author"), StringValue, None, None, None, None)])
    ensures var bound := [TemplateInput(Some("Author"), StringValue, None, Some("Jane Doe"), None, None)];
            var r := RenderedPackage(AuthorTemplate, bound, map[], fmt);
            && r.Ok?
            && "word/document.xml" in r.value.files && r.value.files["word/document.xml"] == Raw("body")
            && r.value.files[CustomXmlPath] == Xml(AuthorRoot.(children := [WithValueText(AuthorProperty, "Jane Doe")]))
            && (Zips(rendered, r.value) ==> Synced(rendered, map[], bound, fmt) == Ok(SyncOutcome(map[], Some(bound))))
  {
    AuthorDiscovery();
    AuthorUnzip();
    var bound := [TemplateInput(Some("Author"), StringValue, None, Some("Jane Doe"), None, None)];
    var out := WithValueText(AuthorProperty, "Jane Doe");
    assert RenderNode(AuthorProperty, bound, map[], fmt) == Ok(out);
    RenderNodesAllOk([AuthorProperty], bound, map[], fmt, [out]);
    var r := RenderedPackage(AuthorTemplate, bound, map[], fmt);
    if Zips(rendered, r.value) {
      assert IsNormalText("Jane Doe");
      assert RoundTrips(bound[0], map[], fmt);
      RenderThenSync(AuthorTemplate, bound, map[], fmt, rendered);
    }
  }

  lemma {:induction false} AuthorDiscovery()
    ensures InitialParameters(AuthorTemplate) == Ok([TemplateInput(Some("Author"), StringValue, None, None, None, None)])
  {
    var entries := AuthorTemplate.entries;
    assert PropertyFile(entries) == Some(Xml(AuthorRoot)) by {
      assert entries[1..][0].name == CustomXmlPath;
    }
    assert InferType("lpwstr") == StringValue by {
      assert OccursAt("lpwstr", "lpwstr", 0);
    }
    assert DiscoverInputs([AuthorProperty]) == Ok([UnboundInput(AuthorProperty)]) by {
      assert IsProperty(AuthorProperty) && |AuthorProperty.children| > 0;
      assert [AuthorProperty][1..] == [];
      assert DiscoverInputs([]) == Ok([]);
      assert [UnboundInput(AuthorProperty)] + [] == [UnboundInput(AuthorProperty)];
    }
  }

  lemma {:induction false} AuthorUnzip()
    ensures Unzip(AuthorTemplate.entries) == map["word/document.xml" := Raw("body"), CustomXmlPath := Xml(AuthorRoot)]
  {
    var entries := AuthorTemplate.entries;
    var first := entries[..1];
    assert first == [Entry("word/document.xml", Raw("body"))];
    assert first[..0] == [];
    assert Unzip(first) == Unzip(first[..0])["word/document.xml" := Raw("body")];
    assert Unzip(first) == map["word/document.xml" := Raw("body")];
    assert Unzip(entries) == Unzip(first)[CustomXmlPath := Xml(AuthorRoot)];
  }
}
