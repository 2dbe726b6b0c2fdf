/**
 * Building the RO-Crate metadata sent to the dispatcher (src/lib/dispatcherUtils.ts):
 * the table of analyses, copying a file's "onedata" location fields onto the
 * crate entities named after the parameter the file is mapped to, and the
 * check that every parameter of an analysis has a file.
 */
module DispatcherUtils {
  import opened Wrappers
  import ParameterMapping

  /** A JSON value held by an RO-Crate entity; values the model does not inspect are opaque. */
  datatype Value = Text(text: string) | Flag(flag: bool) | Opaque(token: nat)

  /** One entity of `@graph`: its properties by name. */
  type Entity = map<string, Value>

  /** An RO-Crate document: its `@graph` (absent when the key is missing) and its other top-level keys. */
  datatype Crate = Crate(graph: Option<seq<Entity>>, rest: map<string, Value>)

  /** The template JSON files the analyses start from. */
  datatype TemplateFile = MetadataTemplate | RoCrateTemplate

  /** The contents of the two template files, which are not part of this model. */
  datatype Templates = Templates(metadata: Crate, roCrate: Crate)

  function TemplateContent(templates: Templates, file: TemplateFile): Crate
  {
    match file
    case MetadataTemplate => templates.metadata
    case RoCrateTemplate => templates.roCrate
  }

  datatype DispatcherConfig = DispatcherConfig(
    name: string, description: string, template: TemplateFile, datasetHandle: string, parameters: seq<string>)

  /** `DISPATCHER_CONFIGS[dispatcherType]`. */
  function Config(dispatcherType: string): (r: Option<DispatcherConfig>)
    ensures r.Some? <==> dispatcherType in {"text-reversion", "ocr-wordcloud"}
  {
    if dispatcherType == "text-reversion" then
      Some(DispatcherConfig("Text file reversion (Galaxy)", "Reverse the content of a text file",
        MetadataTemplate, "http://hdl.handle.net/21.T15999/01BYJvzYl", ["simpletext_input"]))
    else if dispatcherType == "ocr-wordcloud" then
      Some(DispatcherConfig("OCR + word cloud (Galaxy)", "Perform OCR on an image and generate a word cloud",
        RoCrateTemplate, "http://hdl.handle.net/21.T15999/JxVUdTVB", ["Input Image", "Upload Stopwords"]))
    else None
  }

  /** A file listed by FileMetrix; only its RO-Crate extensions matter here (a key is present when defined). */
  datatype FileMetrixFile = FileMetrixFile(name: string, extensions: map<string, Value>)

  datatype Error = InvalidDispatcherType(dispatcherType: string) | GraphNotIterable

  /** The message of the error the source throws. */
  function Message(e: Error): string
  {
    match e
    case InvalidDispatcherType(t) => "Invalid dispatcher type: " + t
    case GraphNotIterable => "graph is not iterable"
  }

  /** The four fields copied from a file's extensions, in the order they are copied. */
  const OnedataFields: seq<string> :=
    ["onedata:onezoneDomain", "onedata:spaceId", "onedata:fileId", "onedata:publicAccess"]

  /** `item.name === targetName`. */
  predicate NameIs(entity: Entity, targetName: string)
  {
    "name" in entity && entity["name"] == Text(targetName)
  }

  /**
   * The entity after the inner loop of `updateOnedataForTarget` has copied the
   * fields `OnedataFields[j..]`: each defined one is set, nothing else changes.
   */
  function CopyOnedata(entity: Entity, extensions: map<string, Value>, j: nat): (r: Entity)
    requires j <= |OnedataFields|
    ensures forall f :: f in r <==> f in entity || (f in OnedataFields[j..] && f in extensions)
    ensures forall f :: f in r ==>
      r[f] == if f in OnedataFields[j..] && f in extensions then extensions[f] else entity[f]
    decreases |OnedataFields| - j
  {
    if j == |OnedataFields| then entity
    else
      var field := OnedataFields[j];
      assert field !in OnedataFields[j + 1..];
      assert forall f :: f in OnedataFields[j..] <==> f == field || f in OnedataFields[j + 1..];
      CopyOnedata(if field in extensions then entity[field := extensions[field]] else entity, extensions, j + 1)
  }

  /** The graph after the outer loop: every entity named `targetName` gets the onedata fields. */
  function UpdatedGraph(graph: seq<Entity>, targetName: string, extensions: map<string, Value>): (r: seq<Entity>)
    ensures |r| == |graph|
    ensures forall i :: 0 <= i < |graph| && !NameIs(graph[i], targetName) ==> r[i] == graph[i]
    ensures forall i :: 0 <= i < |graph| && NameIs(graph[i], targetName) ==> r[i] == CopyOnedata(graph[i], extensions, 0)
  {
    seq(|graph|, i requires 0 <= i < |graph| =>
      if NameIs(graph[i], targetName) then CopyOnedata(graph[i], extensions, 0) else graph[i])
  }

  /** What `updateOnedataForTarget` returns; it throws when the crate has no `@graph`. */
  function OnedataUpdated(crate: Crate, targetName: string, extensions: map<string, Value>): (r: Result<Crate, Error>)
    ensures r.Failure? <==> crate.graph.None?
    ensures r.Failure? ==> r.error == GraphNotIterable
    ensures r.Success? ==> r.value.rest == crate.rest && r.value.graph.Some?
  {
    match crate.graph
    case None => Failure(GraphNotIterable)
    case Some(graph) => Success(crate.(graph := Some(UpdatedGraph(graph, targetName, extensions))))
  }

  /** Inner loop of `updateOnedataForTarget` (lines 47-51) on one entity. */
  method CopyOnedataFields(entity: Entity, extensions: map<string, Value>) returns (r: Entity)
    ensures r == CopyOnedata(entity, extensions, 0)
  {
    r := entity;
    var j := 0;
    while j < |OnedataFields|
      invariant 0 <= j <= |OnedataFields|
      invariant CopyOnedata(r, extensions, j) == CopyOnedata(entity, extensions, 0)
    {
      CopyOnedataStep(r, extensions, j);
      var field := OnedataFields[j];
      if field in extensions {
        r := r[field := extensions[field]];
      }
      j := j + 1;
    }
  }

  /** One step of the copy: field `j` is copied, then the fields after it. */
  lemma CopyOnedataStep(entity: Entity, extensions: map<string, Value>, j: nat)
    requires j < |OnedataFields|
    ensures var field := OnedataFields[j];
      CopyOnedata(entity, extensions, j) ==
      CopyOnedata(if field in extensions then entity[field := extensions[field]] else entity, extensions, j + 1)
  {
  }

  /**
   * `updateOnedataForTarget`: on a copy of `inputJson`, every entity of
   * `@graph` whose name is `targetName` receives each onedata field the
   * extensions define; fields outside the four and other entities are left alone.
   */
  method UpdateOnedataForTarget(inputJson: Crate, targetName: string, extensions: map<string, Value>)
    returns (r: Result<Crate, Error>)
    ensures r == OnedataUpdated(inputJson, targetName, extensions)
  {
    if inputJson.graph.None? {
      return Failure(GraphNotIterable);
    }
    var graph := inputJson.graph.value;
    var items := graph;
    var i := 0;
    while i < |items|
      invariant 0 <= i <= |items| == |graph|
      invariant forall k :: 0 <= k < i ==> items[k] == UpdatedGraph(graph, targetName, extensions)[k]
      invariant forall k :: i <= k < |items| ==> items[k] == graph[k]
    {
      if NameIs(items[i], targetName) {
        var updated := CopyOnedataFields(items[i], extensions);
        items := items[i := updated];
      }
      i := i + 1;
    }
    assert items == UpdatedGraph(graph, targetName, extensions);
    r := Success(inputJson.(graph := Some(items)));
  }

  /** `datasetTitle` is a non-empty string. */
  predicate Truthy(title: Option<string>)
  {
    title.Some? && title.value != []
  }

  /** The template after lines 76-79: the first entity is renamed after the dataset. */
  function Titled(config: DispatcherConfig, metadata: Crate, datasetTitle: Option<string>): (r: Crate)
    ensures r.rest == metadata.rest
    ensures r.graph.Some? <==> metadata.graph.Some?
    ensures r.graph.Some? ==> |r.graph.value| == |metadata.graph.value|
    ensures Truthy(datasetTitle) && metadata.graph.Some? && metadata.graph.value != [] ==>
      && "name" in r.graph.value[0] && "description" in r.graph.value[0]
      && r.graph.value[0]["name"] == Text(config.name + " for: " + datasetTitle.value)
      && r.graph.value[0]["description"] == Text(config.description + " - Dataset: " + datasetTitle.value)
      && r.graph.value[1..] == metadata.graph.value[1..]
    ensures !(Truthy(datasetTitle) && metadata.graph.Some? && metadata.graph.value != []) ==> r == metadata
  {
    if Truthy(datasetTitle) && metadata.graph.Some? && metadata.graph.value != [] then
      var title := datasetTitle.value;
      var graph := metadata.graph.value;
      var first := graph[0]["name" := Text(config.name + " for: " + title)]
                           ["description" := Text(config.description + " - Dataset: " + title)];
      metadata.(graph := Some(graph[0 := first]))
    else metadata
  }

  /**
   * The mappings of files `i..` applied in ascending file order, which is the
   * order `Object.entries` gives integer keys; a key with no file is skipped.
   */
  function ApplyMappings(metadata: Crate, mappings: map<int, string>, files: seq<FileMetrixFile>, i: nat)
    : (r: Result<Crate, Error>)
    requires i <= |files|
    decreases |files| - i
  {
    if i == |files| then Success(metadata)
    else if i in mappings then
      match OnedataUpdated(metadata, mappings[i], files[i].extensions)
      case Failure(e) => Failure(e)
      case Success(next) => ApplyMappings(next, mappings, files, i + 1)
    else ApplyMappings(metadata, mappings, files, i + 1)
  }

  /** What `prepareDispatcherMetadata` returns or throws. */
  function PreparedMetadata(templates: Templates, dispatcherType: string, mappings: map<int, string>,
                            files: seq<FileMetrixFile>, datasetTitle: Option<string>): (r: Result<Crate, Error>)
    ensures Config(dispatcherType).None? ==> r == Failure(InvalidDispatcherType(dispatcherType))
  {
    match Config(dispatcherType)
    case None => Failure(InvalidDispatcherType(dispatcherType))
    case Some(config) =>
      ApplyMappings(Titled(config, TemplateContent(templates, config.template), datasetTitle), mappings, files, 0)
  }

  /** `prepareDispatcherMetadata`, with the `forEach` over the mappings as a loop. */
  method PrepareDispatcherMetadata(templates: Templates, dispatcherType: string, mappings: map<int, string>,
                                   files: seq<FileMetrixFile>, datasetTitle: Option<string>)
    returns (r: Result<Crate, Error>)
    ensures r == PreparedMetadata(templates, dispatcherType, mappings, files, datasetTitle)
    ensures Config(dispatcherType).None? ==> r.Failure? && Message(r.error) == "Invalid dispatcher type: " + dispatcherType
  {
    var config := Config(dispatcherType);
    if config.None? {
      return Failure(InvalidDispatcherType(dispatcherType));
    }
    var metadata := Titled(config.value, TemplateContent(templates, config.value.template), datasetTitle);
    var i := 0;
    while i < |files|
      invariant 0 <= i <= |files|
      invariant ApplyMappings(metadata, mappings, files, i) == PreparedMetadata(templates, dispatcherType, mappings, files, datasetTitle)
    {
      if i in mappings {
        var updated := UpdateOnedataForTarget(metadata, mappings[i], files[i].extensions);
        if updated.Failure? {
          return Failure(updated.error);
        }
        metadata := updated.value;
      }
      i := i + 1;
    }
    r := Success(metadata);
  }

  /** Two entities agree on every field outside the four onedata fields. */
  ghost predicate SameOutsideOnedata(a: Entity, b: Entity)
  {
    forall f :: f !in OnedataFields ==> (f in a <==> f in b) && (f in a ==> a[f] == b[f])
  }

  /** With a `@graph`, applying the mappings never throws. */
  lemma {:induction false} ApplyMappingsSucceeds(metadata: Crate, mappings: map<int, string>,
                                                 files: seq<FileMetrixFile>, i: nat)
    requires i <= |files| && metadata.graph.Some?
    ensures ApplyMappings(metadata, mappings, files, i).Success?
    decreases |files| - i
  {
    if i < |files| {
      if i in mappings {
        ApplyMappingsSucceeds(OnedataUpdated(metadata, mappings[i], files[i].extensions).value, mappings, files, i + 1);
      } else {
        ApplyMappingsSucceeds(metadata, mappings, files, i + 1);
      }
    }
  }

  /** Applying mappings keeps the graph's length and every entity's fields outside the four. */
  lemma {:induction false} ApplyMappingsKeepsOtherFields(metadata: Crate, mappings: map<int, string>,
                                                         files: seq<FileMetrixFile>, i: nat)
    requires i <= |files|
    requires ApplyMappings(metadata, mappings, files, i).Success?
    ensures var r := ApplyMappings(metadata, mappings, files, i).value;
      && r.rest == metadata.rest
      && (r.graph.Some? <==> metadata.graph.Some?)
      && (r.graph.Some? ==>
            (&& |r.graph.value| == |metadata.graph.value|
             && forall k :: 0 <= k < |r.graph.value| ==> SameOutsideOnedata(metadata.graph.value[k], r.graph.value[k])))
    decreases |files| - i
  {
    if i < |files| {
      if i in mappings && OnedataUpdated(metadata, mappings[i], files[i].extensions).Success? {
        var next := OnedataUpdated(metadata, mappings[i], files[i].extensions).value;
        ApplyMappingsKeepsOtherFields(next, mappings, files, i + 1);
        var graph := metadata.graph.value;
        forall k | 0 <= k < |graph|
          ensures SameOutsideOnedata(graph[k], next.graph.value[k])
        {
          if NameIs(graph[k], mappings[i]) {
            var _ := CopyOnedata(graph[k], files[i].extensions, 0);
          }
        }
        var r := ApplyMappings(metadata, mappings, files, i).value;
        forall k | 0 <= k < |r.graph.value|
          ensures SameOutsideOnedata(graph[k], r.graph.value[k])
        {
          assert SameOutsideOnedata(graph[k], next.graph.value[k]);
          assert SameOutsideOnedata(next.graph.value[k], r.graph.value[k]);
        }
      } else if i !in mappings {
        ApplyMappingsKeepsOtherFields(metadata, mappings, files, i + 1);
      }
    }
  }

  /** With a title and a non-empty graph, the prepared crate's first entity is named after the dataset. */
  lemma PreparedNameAndDescription(templates: Templates, dispatcherType: string, mappings: map<int, string>,
                                   files: seq<FileMetrixFile>, title: string)
    requires Config(dispatcherType).Some?
    requires title != []
    requires var template := TemplateContent(templates, Config(dispatcherType).value.template);
      template.graph.Some? && template.graph.value != []
    ensures PreparedMetadata(templates, dispatcherType, mappings, files, Some(title)).Success?
    ensures var config := Config(dispatcherType).value;
      var r := PreparedMetadata(templates, dispatcherType, mappings, files, Some(title)).value;
      && r.graph.Some? && r.graph.value != []
      && "name" in r.graph.value[0] && r.graph.value[0]["name"] == Text(config.name + " for: " + title)
      && "description" in r.graph.value[0]
      && r.graph.value[0]["description"] == Text(config.description + " - Dataset: " + title)
  {
    var config := Config(dispatcherType).value;
    var titled := Titled(config, TemplateContent(templates, config.template), Some(title));
    ApplyMappingsSucceeds(titled, mappings, files, 0);
    ApplyMappingsKeepsOtherFields(titled, mappings, files, 0);
    var r := ApplyMappings(titled, mappings, files, 0).value;
    assert "name" !in OnedataFields && "description" !in OnedataFields;
    assert SameOutsideOnedata(titled.graph.value[0], r.graph.value[0]);
  }

  /** Mappings whose file index has no file play no part: only the keys `i..|files|-1` matter. */
  lemma {:induction false} ApplyMappingsIgnoresMissingFiles(metadata: Crate, m1: map<int, string>, m2: map<int, string>,
                                                            files: seq<FileMetrixFile>, i: nat)
    requires i <= |files|
    requires forall k :: i <= k < |files| ==> (k in m1 <==> k in m2) && (k in m1 ==> m1[k] == m2[k])
    ensures ApplyMappings(metadata, m1, files, i) == ApplyMappings(metadata, m2, files, i)
    decreases |files| - i
  {
    if i < |files| {
      if i in m1 {
        var u := OnedataUpdated(metadata, m1[i], files[i].extensions);
        if u.Success? {
          ApplyMappingsIgnoresMissingFiles(u.value, m1, m2, files, i + 1);
        }
      } else {
        ApplyMappingsIgnoresMissingFiles(metadata, m1, m2, files, i + 1);
      }
    }
  }

  /** Some file is mapped to `parameter`. */
  ghost predicate IsMapped(mappings: map<int, string>, parameter: string)
  {
    exists k :: k in mappings && mappings[k] == parameter
  }

  /** `parameters.every(param => mappedParameters.has(param))`. */
  function EveryMapped(parameters: seq<string>, mappings: map<int, string>): (r: bool)
    ensures r <==> forall p :: p in parameters ==> IsMapped(mappings, p)
  {
    if parameters == [] then true
    else
      assert forall p :: p in parameters <==> p == parameters[0] || p in parameters[1..];
      var first := exists k | k in mappings :: mappings[k] == parameters[0];
      assert first <==> IsMapped(mappings, parameters[0]);
      first && EveryMapped(parameters[1..], mappings)
  }

  /** `areAllParametersMapped`: false for an unknown analysis, otherwise every parameter has at least one file. */
  function AreAllParametersMapped(dispatcherType: string, mappings: map<int, string>): (r: bool)
    ensures Config(dispatcherType).None? ==> !r
    ensures Config(dispatcherType).Some? ==>
      (r <==> forall p :: p in Config(dispatcherType).value.parameters ==> IsMapped(mappings, p))
  {
    match Config(dispatcherType)
    case None => false
    case Some(config) => EveryMapped(config.parameters, mappings)
  }

  /**
   * The check is "at least once"; for mappings edited by `handleParameterChange`,
   * which keep every parameter on one file, that is "exactly once".
   */
  lemma MappedExactlyOnce(dispatcherType: string, mappings: map<int, string>, p: string)
    requires ParameterMapping.Injective(mappings)
    requires AreAllParametersMapped(dispatcherType, mappings)
    requires p in Config(dispatcherType).value.parameters
    ensures exists k :: k in mappings && mappings[k] == p
    ensures forall k, k' :: k in mappings && k' in mappings && mappings[k] == p && mappings[k'] == p ==> k == k'
  {
  }
}
