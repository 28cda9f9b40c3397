/** extension.ts: the `api-tester.openPanel` command. The command finds the
    endpoint under the cursor (or at the line the caller names), synthesises
    a payload for body-carrying verbs and opens the request panel on it. */
module Extension {
  import opened Wrappers
  import opened Strings
  import opened JsonValue
  import opened ReadController

  /** The active text editor: its document's file name and the 0-based line
      of the cursor. */
  datatype ActiveEditor = ActiveEditor(fileName: string, line: int)

  datatype KeyValue = KeyValue(key: string, value: string)

  /** What `RequestPanel.createOrShow` receives. */
  datatype PanelData = PanelData(httpMethod: string, route: string, payload: Json, queryParams: seq<KeyValue>)

  /** How one invocation of the command ends. `EndpointNotFound` carries the
      1-based line number the error message shows. */
  datatype Outcome =
    | NoFileError
    | ControllerReadError
    | EndpointNotFound(shownLine: int)
    | Opened(data: PanelData)

  /** Where the command looks: explicit arguments win when the file name is
      non-empty and a line is given; otherwise the active editor's file and
      cursor line; with neither, nowhere. */
  function ResolveTarget(argFileName: Option<string>, argLine: Option<int>, editor: Option<ActiveEditor>)
    : (r: Option<(string, int)>)
    ensures Truthy(argFileName) && argLine.Some? ==> r == Some((argFileName.value, argLine.value))
    ensures !(Truthy(argFileName) && argLine.Some?) && editor.Some? ==>
      r == Some((editor.value.fileName, editor.value.line))
    ensures r.None? <==> !(Truthy(argFileName) && argLine.Some?) && editor.None?
  {
    if Truthy(argFileName) && argLine.Some? then Some((argFileName.value, argLine.value))
    else if editor.Some? then Some((editor.value.fileName, editor.value.line))
    else None
  }

  /** The `find` predicate: the cursor is within one line of the decorator,
      or inside the method's line span. */
  predicate AtCursor(e: EndpointDef, line: int) {
    var onDecorator := -1 <= line - e.line <= 1;
    var insideMethod := e.startLine <= line <= e.endLine;
    onDecorator || insideMethod
  }

  /** Index of the endpoint `endpoints.find(..)` returns. */
  function FindEndpoint(endpoints: seq<EndpointDef>, line: int): (r: Option<nat>)
    ensures r.Some? ==> r.value < |endpoints| && AtCursor(endpoints[r.value], line)
    ensures r.Some? ==> forall j :: 0 <= j < r.value ==> !AtCursor(endpoints[j], line)
    ensures r.None? <==> forall j :: 0 <= j < |endpoints| ==> !AtCursor(endpoints[j], line)
  {
    FirstWhere(endpoints, (e: EndpointDef) => AtCursor(e, line))
  }

  /** A cursor on an endpoint's decorator line always finds an endpoint, the
      same one or an earlier one in list order. */
  lemma FindOnDecoratorLine(endpoints: seq<EndpointDef>, i: nat)
    requires i < |endpoints|
    ensures FindEndpoint(endpoints, endpoints[i].line).Some?
    ensures FindEndpoint(endpoints, endpoints[i].line).value <= i
  {
    assert AtCursor(endpoints[i], endpoints[i].line);
  }

  /** The verbs for which a request body is synthesised. */
  const BodyVerbs: seq<string> := ["POST", "PUT", "PATCH"]

  predicate WantsPayload(e: EndpointDef) {
    e.httpMethod in BodyVerbs && Truthy(e.dtoPath) && Truthy(e.dtoClass)
  }

  /** One `{key: q, value: ''}` per query-parameter name, in order. */
  function QueryEntries(names: seq<string>): (r: seq<KeyValue>)
    ensures |r| == |names|
    ensures forall i :: 0 <= i < |names| ==> r[i].key == names[i] && r[i].value == ""
  {
    Map(names, (q: string) => KeyValue(q, ""))
  }

  /** The `api-tester.openPanel` handler. `analyze(file)` stands for reading
      the controller in `file` (None when that throws); `payloadFor(path,
      class)` for reading the DTO and synthesising its payload (None when
      that throws). */
  method OpenPanel(
    argFileName: Option<string>,
    argLine: Option<int>,
    editor: Option<ActiveEditor>,
    analyze: string -> Option<seq<EndpointDef>>,
    payloadFor: (string, string) -> Option<Json>)
    returns (outcome: Outcome)
    ensures outcome.NoFileError? <==> ResolveTarget(argFileName, argLine, editor).None?
    ensures outcome.ControllerReadError? <==>
      ResolveTarget(argFileName, argLine, editor).Some?
      && analyze(ResolveTarget(argFileName, argLine, editor).value.0).None?
    ensures outcome.EndpointNotFound? ==>
      var (file, line) := ResolveTarget(argFileName, argLine, editor).value;
      analyze(file).Some? && FindEndpoint(analyze(file).value, line).None?
      && outcome.shownLine == line + 1
    ensures outcome.Opened? <==>
      ResolveTarget(argFileName, argLine, editor).Some?
      && var (file, line) := ResolveTarget(argFileName, argLine, editor).value;
      analyze(file).Some? && FindEndpoint(analyze(file).value, line).Some?
    ensures outcome.Opened? ==>
      var (file, line) := ResolveTarget(argFileName, argLine, editor).value;
      var target := analyze(file).value[FindEndpoint(analyze(file).value, line).value];
      && outcome.data.httpMethod == target.httpMethod
      && outcome.data.route == target.route
      && outcome.data.queryParams == QueryEntries(target.queryParams)
      && (!WantsPayload(target) ==> outcome.data.payload == EmptyObject)
      && (WantsPayload(target) && payloadFor(target.dtoPath.value, target.dtoClass.value).None? ==>
            outcome.data.payload == EmptyObject)
      && (WantsPayload(target) && payloadFor(target.dtoPath.value, target.dtoClass.value).Some? ==>
            outcome.data.payload == payloadFor(target.dtoPath.value, target.dtoClass.value).value)
  {
    var fileName := argFileName;
    var lineNumber := argLine;
    if Truthy(fileName) && lineNumber.Some? {
      // called from the tree view or a lens: the arguments name the place
    } else if editor.Some? {
      fileName := Some(editor.value.fileName);
      lineNumber := Some(editor.value.line);
    } else {
      return NoFileError;
    }

    var endpoints := analyze(fileName.value);
    if endpoints.None? {
      return ControllerReadError;
    }

    var index := FindEndpoint(endpoints.value, lineNumber.value);
    if index.None? {
      return EndpointNotFound(lineNumber.value + 1);
    }
    var target := endpoints.value[index.value];

    var generatedPayload := EmptyObject;
    if target.httpMethod in BodyVerbs && Truthy(target.dtoPath) && Truthy(target.dtoClass) {
      var payload := payloadFor(target.dtoPath.value, target.dtoClass.value);
      if payload.Some? {
        generatedPayload := payload.value;
      }
    }

    outcome := Opened(PanelData(target.httpMethod, target.route, generatedPayload, QueryEntries(target.queryParams)));
  }
}
