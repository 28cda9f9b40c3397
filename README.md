# Osprey API tester: a Dafny model of its core

Osprey is a VS Code extension for NestJS back ends. It reads controller
files, finds every HTTP endpoint they declare, and lists the endpoints in a
side bar grouped by controller. It marks each verb decorator in the editor
with a code lens and a quick fix. Its command opens a request panel on the
endpoint under the cursor, with an example JSON body built from the body
DTO. The panel sends the request. A small database helper reads the
connection settings from a `.env` file and previews a table.

This project models that core in Dafny, one module per source file:

- `ReadController` (read-controller.ts):
  - picking the controller class (a `@Controller` class, else an exported class whose name holds "Controller", else the last exported class);
  - building the route;
  - collecting one endpoint per verb-decorated method, with its body DTO, entity, table and parameters.
  `ReadController.ReadController` is the imperative selection loop and endpoint push. It is proved equal to the pure `ReadControllerSpec`.
- `ReadDto` and `ReadEntity` (read-dto.ts, read-entity.ts):
  - DTO fields and the DTOs they refer to;
  - the `@Entity` table name.
  The ts-morph `Project` is a class (`Ast.Project`) whose cache of loaded files is a map. Its invariant is that every loaded file equals its copy on disk.
- `GeneratePayload` (generate-payload.ts): the recursive example body.
  - The method `GenerateSkeletonPayload` fills the payload field by field through the shared project.
  - It is proved equal to the function `Skeleton`.
  - Objects nest at most five deep, whatever the DTO graph (cycles included).
- `VerbPattern`, `CodeLens`, `CodeAction` (the two providers):
  - the regex `@(Get|Post|Put|Delete|Patch|Options|Head)\s*\(` as a table of match lengths;
  - the global `exec` loop with its `lastIndex`, as a class;
  - the single-line `test`.
  Lemmas show that the lenses are exactly the match starts, in order. The quick fix's `test` finds a match on a line exactly when a global scan of that line's own text does. Every line offered the quick fix also gets a lens. The converse fails, because `\s*` may run across a line break.
- `ApiTree` (ApiTreeProvider.ts): the tree provider class with its cache and loading flag.
  - The root request scans the controller files, keeps those yielding endpoints, names them and sorts them.
  - A controller's children are its endpoints.
- `Extension` (extension.ts): the `api-tester.openPanel` command:
  - where it looks;
  - which endpoint `find` picks;
  - when a payload is synthesised;
  - what the panel receives;
  - its three error exits.
- `Panel` (RequestPanel.ts):
  - the request `_handleSendRequest` prepares (automatic headers, custom header rows, query string, body);
  - `_formatSize`;
  - the panel class with its subscriptions and `dispose`;
  - the static `currentPanel` reached through `createOrShow`.
  Each `update` call registers one more message listener, and the model keeps count of them.
- `EnvParser`, `DbConnection` (env-parser.ts, db-connection.ts):
  - the `||` fallback chains over the `.env` keys;
  - JavaScript's `parseInt`;
  - the connection service class;
  - the table-name sanitiser and the preview query.

Shared modules:
- `Wrappers`: Option and the `find`/`filter` searches.
- `Strings`: `trim`, quote stripping, `includes`, ASCII case mapping and number printing.
- `JsonValue`: payload values.
- `Ast`: stand-ins for the ts-morph declarations.

Two consequences of the code:
- A controller with an empty base route and an empty sub-route gets the route "" and not "/". `/${sub}` becomes "/", and the trailing-slash removal then empties it (`ReadController.RouteExampleEmpty`).
- A table name or a DTO path that is the empty string counts as absent, because the code tests it for truthiness.

## Model

| member | source | states |
|---|---|---|
| Ast.GetDecorator | src/core/read-controller.ts:28 | `getDecorator(name)`: the first decorator with that name, none exactly when no decorator has it |
| Ast.GetClass | src/core/read-entity.ts:8 | `getClass(name)`: a class of the file with that name, none exactly when no class has it |
| Ast.Project.constructor | src/providers/ApiTreeProvider.ts:77-83 | a new project has nothing loaded and satisfies its invariant |
| Ast.Project.GetOrAddSourceFile | src/core/read-dto.ts:14 | the disk's copy of the file, or none when the file is missing (`addSourceFileAtPath` throws); a loaded file is reused and the cache is unchanged; a missing one is added; the invariant is kept |
| Strings.Trim | src/core/read-controller.ts:58 | `trim`: the text with a blank head and a blank tail cut off, so every character comes from the text; no white space at either end; empty exactly for blank text; text without outer white space unchanged |
| Strings.TrimPadded | src/core/read-controller.ts:58 | trimming a word with blank text on either side gives back exactly the word |
| Strings.StripQuotes | src/core/read-controller.ts:58 | `replace(/['"]/g, "")`: no quote remains, nothing longer, quote-free text unchanged |
| Strings.StripQuotesChar | src/core/read-controller.ts:58 | a single quote character is removed; any other single character is kept |
| Strings.StripQuotesAppend | src/core/read-controller.ts:58 | quote removal works piece by piece, so the kept characters stay in their order |
| Strings.RemoveFirst | src/providers/ApiTreeProvider.ts:105 | `replace` with a string pattern: the text with the first occurrence of the pattern cut out, one pattern length shorter; the text itself when the pattern does not occur |
| Strings.IntString | src/core/db-connection.ts:60 | a number in a template literal: the decimal digits of the magnitude, after a minus sign for negatives |
| ReadController.SelectedController | src/core/read-controller.ts:27-51 | a selected class is one of the file's classes; none exactly when no class has a `@Controller` decorator and none is exported |
| ReadController.SelectedControllerStages | src/core/read-controller.ts:27-51 | the three-stage choice: the first `@Controller` class; else the first class named like a controller; else the last exported class; else none |
| ReadController.SelectControllerClass | src/core/read-controller.ts:24-51 | the two `for`/`break` loops and the exported fallback return the class the three-stage choice names |
| ReadController.RouteArgument | src/core/read-controller.ts:58 | "" without an argument; otherwise the first argument with its quotes removed and a blank head and tail cut off, leaving no quote and no white space at either end |
| ReadController.BaseRoute | src/core/read-controller.ts:53-60 | the first `@Controller` argument with its quotes removed and trimmed; "" without the decorator or without an argument; no quote remains and no white space at either end |
| ReadController.CollapseSlashes | src/core/read-controller.ts:81 | `replace(/\/+/g, "/")`: no doubled slash is left, nothing grows, the first character is kept |
| ReadController.CollapseKeepsText | src/core/read-controller.ts:81 | the collapse keeps every other character, in order, and keeps a '/' exactly when the text has one |
| ReadController.CollapseAppend | src/core/read-controller.ts:81 | text cut after a character other than '/' collapses piece by piece |
| ReadController.CollapseRun | src/core/read-controller.ts:81 | a run of one or more slashes before slash-free text becomes a single '/' |
| ReadController.CollapseFixpoint | src/core/read-controller.ts:81 | text without doubled slashes is left alone by the collapse |
| ReadController.NormalizeRoute | src/core/read-controller.ts:81 | the normalised route has no doubled slash and no trailing slash, and starts with '/' when the input did (unless empty) |
| ReadController.NormalizeKeepsText | src/core/read-controller.ts:81 | normalising removes only slashes: the other characters stay, in order |
| ReadController.NormalizeIdempotent | src/core/read-controller.ts:81 | normalising a normalised route changes nothing |
| ReadController.ComposeRoute | src/core/read-controller.ts:80-81 | every route is "" or starts with '/', has no trailing slash and no doubled slash |
| ReadController.ComposeKeepsText | src/core/read-controller.ts:80-81 | apart from slashes, the route is the base followed by the sub-route |
| ReadController.ComposePlain | src/core/read-controller.ts:80-81 | for slash-free base and sub-route: "/base/sub", "/base", "/sub" or "", by which of the two are non-empty |
| ReadController.RouteExampleBaseOnly | src/core/read-controller.ts:80-81 | base "users" with no sub-route gives "/users" |
| ReadController.RouteExampleSubOnly | src/core/read-controller.ts:80-81 | no base and sub-route "profile/" gives "/profile" |
| ReadController.RouteExampleEmpty | src/core/read-controller.ts:80-81 | no base and no sub-route gives "" |
| ReadController.RouteExampleBoth | src/core/read-controller.ts:80-81 | base "users" and sub-route "list" give "/users/list" |
| ReadController.HttpDecorator | src/core/read-controller.ts:65-68 | the first decorator named by one of the eight verbs; none exactly when no decorator is a verb |
| ReadController.BodyDto | src/core/read-controller.ts:84-90 | no `@Body` parameter gives no DTO class and no path; otherwise the class is the name of the first `@Body` parameter's type symbol and the path is that symbol's first declaration file, none without a symbol or a declaration |
| ReadController.EntityInfo | src/core/read-controller.ts:92-105 | no return symbol gives nothing; otherwise the class is the symbol's name and the path its first declaration file, if any; a table name is set exactly when that path holds ".entity." and the entity lookup answers a non-empty name, and it is that answer |
| ReadController.PathParams | src/core/read-controller.ts:107-109 | the names of the `@Param` parameters, one per parameter, in order |
| ReadController.QueryName | src/core/read-controller.ts:113-121 | the cleaned first argument of the parameter's `@Query` decorator when it has one; otherwise the parameter's name |
| ReadController.QueryParams | src/core/read-controller.ts:111-122 | the query names of the `@Query` parameters, one per parameter, in order |
| ReadController.EndpointOf | src/core/read-controller.ts:64-137 | a method yields an endpoint exactly when it has a verb decorator: upper-cased verb, composed route, 0-based lines, parameters, DTO and entity fields |
| ReadController.UpperVerb | src/core/read-controller.ts:74 | an upper-cased verb decorator name is one of the eight upper-case verbs |
| ReadController.HttpMethodIsVerb | src/core/read-controller.ts:67-74 | every endpoint's method is one of the eight upper-case verbs |
| ReadController.CollectEndpoints | src/core/read-controller.ts:62-140 | at most one endpoint per method |
| ReadController.CollectAppend | src/core/read-controller.ts:64-138 | collecting distributes over concatenation, so endpoints keep the order of their methods |
| ReadController.CollectIsFilter | src/core/read-controller.ts:64-138 | exactly one endpoint per verb-decorated method, the k-th from the k-th such method |
| ReadController.ReadControllerSpec | src/core/read-controller.ts:22-141 | no controller class gives no endpoint |
| ReadController.ReadController | src/core/read-controller.ts:22-141 | the imperative selection and `forEach` push return exactly `ReadControllerSpec` |
| ReadController.UsersListExample | src/core/read-controller.ts:22-141 | `@Controller('users')` with one `@Get('list')` method yields exactly one endpoint, GET /users/list |
| ReadController.NoControllerNoEndpoints | src/core/read-controller.ts:44-51 | a file with no `@Controller` class and no exported class yields no endpoint |
| ReadDto.AnalyzeProperty | src/core/read-dto.ts:27-65 | name, type text and array flag are copied; a related DTO exists exactly for a non-primitive type whose symbol is declared outside node_modules; `isClass` is the path's truthiness; primitive types never relate |
| ReadDto.DateNamedDtoNotFollowed | src/core/read-dto.ts:67-75 | `isPrimitiveType` tests the type text: a project DTO class named "BirthDateDto" counts as primitive, so its property is not followed |
| ReadDto.DtoFields | src/core/read-dto.ts:15-24 | no class gives no field; otherwise one analysed field per property, in order |
| ReadDto.ReadDtoSpec | src/core/read-dto.ts:12-25 | none exactly when the file cannot be loaded |
| ReadDto.ReadDto | src/core/read-dto.ts:12-25 | `readDto` through the project returns `ReadDtoSpec`; a loaded file is reused and a missing one is added |
| ReadEntity.GetTableNameFromEntity | src/core/read-entity.ts:3-28 | a name exactly when the file, the class and its `@Entity` exist: the first argument without quotes, else the class name |
| GeneratePayload.PrimitiveValue | src/core/generate-payload.ts:40-51 | a stand-in is never an object; for an array field it is a one-element array of a stand-in |
| GeneratePayload.PrimitiveValueIsTableLookup | src/core/generate-payload.ts:41-50 | the if/else chain is the first of string, number, int, boolean, date found in the lower-cased type, else null |
| GeneratePayload.StringTypeIsString | src/core/generate-payload.ts:44 | a type starting with "string" contains "string" after lower-casing |
| GeneratePayload.WrapNested | src/core/generate-payload.ts:21-25 | wrapping in an array adds no object level |
| GeneratePayload.PrimitiveNested | src/core/generate-payload.ts:40-51 | a stand-in holds no object |
| GeneratePayload.Skeleton | src/core/generate-payload.ts:9-38 | always an object; `{}` beyond depth 3; otherwise its keys are exactly the field names |
| GeneratePayload.Fill | src/core/generate-payload.ts:14-35 | the dictionary's keys are exactly the field names |
| GeneratePayload.LastFieldWins | src/core/generate-payload.ts:14-35 | each key holds the value of the last field with that name |
| GeneratePayload.UnreadableFieldIsEmpty | src/core/generate-payload.ts:26-29 | a nested DTO whose file cannot be read becomes `{}`, or `[{}]` for an array field |
| GeneratePayload.SkeletonNested | src/core/generate-payload.ts:10 | objects nest at most five deep from depth 0, whatever the DTO graph |
| GeneratePayload.FillNested | src/core/generate-payload.ts:14-35 | every field value nests at most one level less than its object |
| GeneratePayload.FieldValueShape | src/core/generate-payload.ts:15-34 | an array field gives a one-element array; the value, or its element, is an object exactly when the field refers to another DTO |
| GeneratePayload.FieldValueNested | src/core/generate-payload.ts:15-34 | a field value keeps within the remaining nesting budget |
| GeneratePayload.RelatedDtoNested | src/core/generate-payload.ts:15-29 | a followed DTO field keeps within the remaining nesting budget |
| GeneratePayload.NameTagsExample | src/core/generate-payload.ts:9-51 | `{name: string, tags: string[]}` gives `{name: "string", tags: ["string"]}` |
| GeneratePayload.GenerateSkeletonPayload | src/core/generate-payload.ts:9-38 | the method, with its loop, recursion and project reads, returns `Skeleton` over the project's disk |
| VerbPattern.SkipWhitespace | src/providers/EndpointCodeLensProvider.ts:5 | `\s*` consumes all white space and stops at the first other character |
| VerbPattern.VerbsAreLetters | src/providers/EndpointCodeLensProvider.ts:5 | the alternatives are spelled in ASCII letters |
| VerbPattern.VerbAt | src/providers/EndpointCodeLensProvider.ts:5 | the alternative picked is spelled after '@' and no earlier alternative is |
| VerbPattern.VerbAtNone | src/providers/EndpointCodeLensProvider.ts:5 | no alternative is picked exactly when none is spelled after '@' |
| VerbPattern.FirstVerb | src/providers/EndpointCodeLensProvider.ts:5 | the alternative picked is the first one, in the order of the alternation, spelled after '@' |
| VerbPattern.LensVerbsNoPrefix | src/providers/EndpointCodeLensProvider.ts:5 | none of the seven alternatives is the beginning of another |
| VerbPattern.OneVerbSpelled | src/providers/EndpointCodeLensProvider.ts:5 | with such alternatives, at most one is spelled after a given '@', so backtracking into another alternative cannot give a different match |
| VerbPattern.PatternLength | src/providers/EndpointCodeLensProvider.ts:5 | for any alternatives, a match starts with '@', ends with '(' and lies within the text |
| VerbPattern.MatchLength | src/providers/EndpointCodeLensProvider.ts:5 | a match of the providers' pattern starts with '@', ends with '(' and lies within the text |
| VerbPattern.NoAtInsideMatch | src/providers/EndpointCodeLensProvider.ts:5 | no '@' follows the first character of a match, so matches never overlap |
| VerbPattern.MatchTable | src/providers/EndpointCodeLensProvider.ts:5 | one entry per text position |
| VerbPattern.MatchTableAt | src/providers/EndpointCodeLensProvider.ts:5 | entry k is the length of the match starting at k |
| VerbPattern.MatchTableWellFormed | src/providers/EndpointCodeLensProvider.ts:5 | every match is non-empty and ends inside the text |
| VerbPattern.MatchTableNoOverlap | src/providers/EndpointCodeLensProvider.ts:5 | no match starts inside another |
| VerbPattern.NextMatch | src/providers/EndpointCodeLensProvider.ts:13 | `exec` from `lastIndex`: the first match start at or after it, none exactly when there is none |
| VerbPattern.ScanFrom | src/providers/EndpointCodeLensProvider.ts:13 | every reported start is a match at or after the start position |
| VerbPattern.ScanUnfold | src/providers/EndpointCodeLensProvider.ts:13 | a global scan is the next match, then the scan resumed after it |
| VerbPattern.ScanIncreasing | src/providers/EndpointCodeLensProvider.ts:13 | the scan reports strictly increasing positions |
| VerbPattern.ScanComplete | src/providers/EndpointCodeLensProvider.ts:13 | without overlaps the scan misses no match |
| VerbPattern.MatchStarts | src/providers/EndpointCodeLensProvider.ts:13 | every reported position starts a match |
| VerbPattern.MatchStartsExact | src/providers/EndpointCodeLensProvider.ts:13 | the scan reports exactly the match positions, each once, in increasing order |
| VerbPattern.TestIffSomeMatch | src/providers/EndpointCodeActionProvider.ts:14 | `test` holds exactly when a match starts somewhere in the line |
| VerbPattern.TestIffScanFinds | src/providers/EndpointCodeActionProvider.ts:14 | `test` on a line holds exactly when a global scan of that same line finds a match |
| VerbPattern.GetWithSpaceMatches | src/providers/EndpointCodeLensProvider.ts:5 | "@Get ('list')" matches: white space may precede '(' |
| VerbPattern.AllDoesNotMatch | src/providers/EndpointCodeLensProvider.ts:5 | "@All()" does not match: All is not an alternative |
| VerbPattern.HeadersDoesNotMatch | src/providers/EndpointCodeLensProvider.ts:5 | "@Headers()" does not match: after "Head" comes neither white space nor '(' |
| VerbPattern.NoParenAfterVerb | src/providers/EndpointCodeLensProvider.ts:5 | the first alternative after '@' followed by a character other than white space or '(' gives no match |
| VerbPattern.GetAloneDoesNotMatch | src/providers/EndpointCodeActionProvider.ts:5 | "@Get" with nothing after it holds no match |
| VerbPattern.MatchInSlice | src/providers/EndpointCodeLensProvider.ts:5 | a match inside a piece of text is a match of the same length at the same place in any text around it |
| VerbPattern.PatternInSlice | src/providers/EndpointCodeLensProvider.ts:5 | the same for any alternatives spelled in letters |
| CodeLens.LineOf | src/providers/EndpointCodeLensProvider.ts:14 | `positionAt(i).line` counts the line breaks before i, so it is at most i |
| CodeLens.SameLine | src/providers/EndpointCodeLensProvider.ts:14 | positions with no line break between them are on the same line |
| CodeLens.LensAt | src/providers/EndpointCodeLensProvider.ts:14-25 | a lens sits at column 0 of the line holding the match, and its command names the file and that line |
| CodeLens.Lenses | src/providers/EndpointCodeLensProvider.ts:13-26 | one lens per match start |
| CodeLens.LensesPointwise | src/providers/EndpointCodeLensProvider.ts:13-26 | the k-th lens belongs to the k-th match start |
| CodeLens.LensesSnoc | src/providers/EndpointCodeLensProvider.ts:25 | pushing one lens appends it at the end |
| CodeLens.CodeLensesExact | src/providers/EndpointCodeLensProvider.ts:7-29 | every match has its lens and every lens comes from a match, once each and in text order |
| CodeLens.NoMatchNoLens | src/providers/EndpointCodeLensProvider.ts:7-29 | text without a verb decorator gets no lens |
| CodeLens.ParenOnNextLine | src/providers/EndpointCodeLensProvider.ts:14 | with '(' on the next line the lens stays on the decorator's line |
| CodeLens.Document | src/providers/EndpointCodeLensProvider.ts:10 | `getText()` of a one-line document is that line |
| CodeLens.DocumentShape | src/providers/EndpointCodeLensProvider.ts:10 | a document is as long as its lines and their "\n" separators, and holds no '\r' |
| CodeLens.DocumentLine | src/providers/EndpointCodeLensProvider.ts:14 | each line sits in the document text at its start offset, and `positionAt` of that offset is on that line's number |
| CodeLens.MatchOnLine | src/providers/EndpointCodeLensProvider.ts:13-14 | a match inside a line of a text gives a match of the text at or after the line's start with no line break in between |
| CodeLens.LensOnLineOfMatch | src/providers/EndpointCodeLensProvider.ts:13-25 | every match gets a lens on the line of its '@' |
| CodeLens.LensOnSameLine | src/providers/EndpointCodeLensProvider.ts:13-25 | a match gets a lens on the line of any earlier position with no line break between them |
| CodeLens.ScanAdvance | src/providers/EndpointCodeLensProvider.ts:13 | one `exec` step either ends the scan with everything found or finds the next start and resumes after it |
| CodeLens.EndpointCodeLensProvider.constructor | src/providers/EndpointCodeLensProvider.ts:5 | a fresh regex starts its search at 0 |
| CodeLens.EndpointCodeLensProvider.Exec | src/providers/EndpointCodeLensProvider.ts:13 | `exec` with the global flag: the next match from `lastIndex`, moving `lastIndex` past it, or resetting it to 0 when none is left |
| CodeLens.EndpointCodeLensProvider.ProvideCodeLenses | src/providers/EndpointCodeLensProvider.ts:7-29 | the `while` loop over `exec` returns exactly the lenses of all matches and leaves `lastIndex` at 0 |
| CodeAction.ProvideCodeActions | src/providers/EndpointCodeActionProvider.ts:7-27 | one quick fix, naming the file and the start line, exactly when the start line holds a match; none otherwise |
| CodeAction.OnlyStartLineMatters | src/providers/EndpointCodeActionProvider.ts:12 | only the line the range starts on matters |
| CodeAction.ActionIffLens | src/providers/EndpointCodeActionProvider.ts:14 | a line gets a quick fix exactly when a global scan of that line's own text finds a decorator |
| CodeAction.QuickFixHasLens | src/providers/EndpointCodeActionProvider.ts:12-26 | a line offered the quick fix has a code lens on its line in any text that holds it as line n |
| CodeAction.QuickFixHasLensInDocument | src/providers/EndpointCodeActionProvider.ts:12-26 | in a document, a line offered the quick fix always has a code lens on the same line |
| CodeAction.LineWithMatchHasLens | src/providers/EndpointCodeLensProvider.ts:13-25 | a line of a text in which a match starts gets a lens on its line |
| CodeAction.LensWithoutQuickFix | src/providers/EndpointCodeActionProvider.ts:14 | the converse fails: in "@Get" followed by a line "()" the lens provider puts a lens on line 0, which gets no quick fix |
| ApiTree.BaseName | src/providers/ApiTreeProvider.ts:104 | `path.basename`: the suffix of the path after its last '/' |
| ApiTree.Capitalize | src/providers/ApiTreeProvider.ts:106 | the first character upper-cased, the rest unchanged |
| ApiTree.ControllerName | src/providers/ApiTreeProvider.ts:104-106 | every label ends in " Controller"; before it comes the capitalised base name, with its first ".controller.ts" cut out when it holds one |
| ApiTree.ControllerNameOfFile | src/providers/ApiTreeProvider.ts:104-106 | a file `dir/stem.controller.ts` with a plain stem is labelled with the capitalised stem and " Controller" |
| ApiTree.UsersControllerLabel | src/providers/ApiTreeProvider.ts:104-106 | "src/users/users.controller.ts" is labelled "Users Controller" |
| ApiTree.GetIcon | src/providers/ApiTreeProvider.ts:204-213 | the plain "symbol-method" icon exactly for verbs outside GET, POST, DELETE, PUT and PATCH |
| ApiTree.IconIgnoresCase | src/providers/ApiTreeProvider.ts:205 | the icon does not depend on the case of the method |
| ApiTree.EndpointItems | src/providers/ApiTreeProvider.ts:152-159 | one item per endpoint, in order: caption "METHOD route", its icon, and a command with the file and the decorator line |
| ApiTree.EndpointItemIsFound | src/providers/ApiTreeProvider.ts:197-201 | clicking an endpoint item opens the panel on an endpoint: this one or an earlier one |
| ApiTree.LabelLeqTotal | src/providers/ApiTreeProvider.ts:129-131 | any two labels are ordered one way or the other |
| ApiTree.Insert | src/providers/ApiTreeProvider.ts:129-131 | inserting into a sorted list keeps it sorted and adds exactly that item |
| ApiTree.InsertStable | src/providers/ApiTreeProvider.ts:129-131 | the new item goes after every item with the same label: the items with any one label are those of the list, in order, then the new item if it has that label |
| ApiTree.SortByLabel | src/providers/ApiTreeProvider.ts:129-131 | the sorted cache is a permutation of the scanned items, ordered by label |
| ApiTree.SortByLabelStable | src/providers/ApiTreeProvider.ts:129-131 | `sort` is stable: the items with any one label keep their scan order |
| ApiTree.SameLabelKeepsScanOrder | src/providers/ApiTreeProvider.ts:129-131 | two "Users Controller" items from different folders stay in the order they were scanned |
| ApiTree.ItemFor | src/providers/ApiTreeProvider.ts:96-120 | a file contributes one named item exactly when it is readable and yields endpoints; otherwise nothing |
| ApiTree.Scan | src/providers/ApiTreeProvider.ts:87-126 | at most one item per file |
| ApiTree.ScanStep | src/providers/ApiTreeProvider.ts:87-126 | one more file extends the scan by that file's contribution |
| ApiTree.ScanSound | src/providers/ApiTreeProvider.ts:87-126 | every item comes from a listed, readable file with endpoints, carries those endpoints and is named after the file |
| ApiTree.ScanComplete | src/providers/ApiTreeProvider.ts:87-126 | every listed readable file with endpoints has its item in the scan |
| ApiTree.ApiTreeProvider.constructor | src/providers/ApiTreeProvider.ts:15-20 | a new provider has an empty cache and is not loading |
| ApiTree.ApiTreeProvider.Refresh | src/providers/ApiTreeProvider.ts:22-27 | `refresh` empties the cache and clears the loading flag |
| ApiTree.ApiTreeProvider.GetRootChildren | src/providers/ApiTreeProvider.ts:33-149 | a filled cache is returned unchanged; a scan in progress or no workspace or no file gives nothing; otherwise the cache becomes the sorted scan and is returned |
| Extension.ResolveTarget | src/extension.ts:42-61 | explicit arguments win when both are given; else the editor's file and cursor line; with neither, nowhere |
| Extension.FindEndpoint | src/extension.ts:73-77 | the first endpoint within one line of its decorator or inside its method; none exactly when no endpoint qualifies |
| Extension.FindOnDecoratorLine | src/extension.ts:73-77 | a cursor on a decorator line always finds that endpoint or an earlier one |
| Extension.QueryEntries | src/extension.ts:101 | one entry with an empty value per query name, in order |
| Extension.OpenPanel | src/extension.ts:40-103 | the three error exits exactly when their conditions hold; otherwise the panel gets the endpoint's method, route and query entries, and a payload only for POST, PUT and PATCH with a readable DTO, else `{}` |
| Panel.OrEmpty | src/panels/RequestPanel.ts:102 | the `or ''` fallback: the value when it is non-empty, else "" |
| Panel.AuthHeader | src/panels/RequestPanel.ts:89-96 | Basic with the encoded "user:pass" when basic with a user; else Bearer with the token when bearer with a token; else none |
| Panel.AutoHeaders | src/panels/RequestPanel.ts:83-96 | Content-Type exactly for a non-blank body with a method other than GET and DELETE; Authorization exactly when the auth gives one; nothing else |
| Panel.ApplyRows | src/panels/RequestPanel.ts:99-105 | the keys are the automatic ones plus those of the enabled rows |
| Panel.LastRowWins | src/panels/RequestPanel.ts:99-105 | an enabled row's value holds unless a later enabled row has the same key, overriding the automatic headers |
| Panel.UnnamedHeaderKept | src/panels/RequestPanel.ts:99-105 | an automatic header no enabled row names keeps its value |
| Panel.ApplyRowsStep | src/panels/RequestPanel.ts:100-104 | one more row assigns its key when enabled and is skipped otherwise |
| Panel.Join | src/panels/RequestPanel.ts:111 | `join` of nothing is "" and of one part is that part |
| Panel.SplitOn | src/panels/RequestPanel.ts:111 | the inverse reading of `join`: pieces free of the separator that join back to the text |
| Panel.SplitJoin | src/panels/RequestPanel.ts:111 | splitting undoes `join` when no part holds the separator |
| Panel.QueryPair | src/panels/RequestPanel.ts:110 | every pair holds '=' |
| Panel.QueryPairSplits | src/panels/RequestPanel.ts:110 | with an encoder that escapes '=', a pair splits back into the encoded key and the encoded value or "" |
| Panel.QueryString | src/panels/RequestPanel.ts:108-111 | the query string is empty exactly when no row is enabled |
| Panel.QueryStringSplits | src/panels/RequestPanel.ts:108-111 | with an encoder that escapes '&', a non-empty query string splits into one pair per enabled row, in row order |
| Panel.WithQuery | src/panels/RequestPanel.ts:113-115 | an empty query leaves the URL alone; otherwise it follows '?', or '&' when the URL already has a '?' |
| Panel.AutomaticHeaders | src/panels/RequestPanel.ts:81-96 | the two `if` blocks build exactly `AutoHeaders` |
| Panel.BuildHeaders | src/panels/RequestPanel.ts:81-105 | the `forEach` over the rows builds the automatic headers with the rows applied in order |
| Panel.PrepareRequest | src/panels/RequestPanel.ts:81-125 | the request has the message's method, the built headers and the URL with its query; data exactly for a non-blank body with POST, PUT or PATCH, parsed JSON when it parses, else the raw text |
| Panel.OptionsGetsContentTypeWithoutData | src/panels/RequestPanel.ts:84 | OPTIONS with a body gets Content-Type yet sends no data |
| Panel.TwoDigits | src/panels/RequestPanel.ts:186 | two decimal digits that read back as the number |
| Panel.Hundredths | src/panels/RequestPanel.ts:186 | hundredths of the quotient rounded to nearest |
| Panel.Fixed2 | src/panels/RequestPanel.ts:186 | `toFixed(2)`: digits, with a point before the last two and no leading zero in the whole part |
| Panel.Fixed2Value | src/panels/RequestPanel.ts:186 | read back, the whole part times 100 plus the two decimals is the count of hundredths |
| Panel.FormatSize | src/panels/RequestPanel.ts:184-188 | bytes below 1024 as "n B", below 1024² as KB with two decimals, else MB |
| Panel.KilobyteRange | src/panels/RequestPanel.ts:186 | a KB label shows at least 1.00 and at most 1024.00 |
| Panel.RequestPanel.constructor | src/panels/RequestPanel.ts:10-18 | the title "Osprey: METHOD route", the data, the dispose subscription plus one listener, nothing disposed |
| Panel.RequestPanel.Update | src/panels/RequestPanel.ts:54-57 | new data, and one more listener subscription; title and disposal state unchanged |
| Panel.RequestPanel.Dispose | src/panels/RequestPanel.ts:190-198 | the host forgets the panel, the webview is disposed and every subscription is disposed in pop order, leaving none; the panel stays valid |
| Panel.Reversed | src/panels/RequestPanel.ts:193-198 | pop order: element i is the i-th from the end |
| Panel.ReversedSameElements | src/panels/RequestPanel.ts:193-198 | popping disposes every subscription exactly once |
| Panel.PanelHost.constructor | src/panels/RequestPanel.ts:5 | no panel is open at first |
| Panel.PanelHost.CreateOrShow | src/panels/RequestPanel.ts:20-41 | an open panel is updated in place: one more subscription, title and disposal state kept; otherwise a new panel is created, titled, subscribed and remembered |
| EnvParser.Lookup | src/core/env-parser.ts:26 | `envConfig[key]`: defined exactly for set keys |
| EnvParser.OrChain | src/core/env-parser.ts:26 | a chain of `or` fallbacks: truthy exactly when some operand is, the first truthy operand wins, otherwise the last operand |
| EnvParser.Values | src/core/env-parser.ts:26-30 | the values of the keys, in order |
| EnvParser.Setting | src/core/env-parser.ts:26-30 | a setting is non-empty exactly when one of its keys is; otherwise it is the last key's value |
| EnvParser.FirstKeyWins | src/core/env-parser.ts:26-30 | the first key with a non-empty value gives the setting |
| EnvParser.PortText | src/core/env-parser.ts:27 | DB_PORT, else POSTGRES_PORT, else "5432" |
| EnvParser.DigitValue | src/core/env-parser.ts:27 | digit values below 36; decimal digits have their face value |
| EnvParser.DigitRun | src/core/env-parser.ts:27 | the leading run of digits: all digits, stopping at the first non-digit |
| EnvParser.Shift | src/core/env-parser.ts:27 | one radix place to the left |
| EnvParser.ParseInt | src/core/env-parser.ts:27 | `parseInt` of blank text is NaN |
| EnvParser.DigitsValueOfNat | src/core/env-parser.ts:27 | the printed digits of n spell n |
| EnvParser.DecimalMagnitude | src/core/env-parser.ts:27 | a decimal digit run followed by a non-digit reads as its value |
| EnvParser.DigitRunStops | src/core/env-parser.ts:27 | the digit run ends where the digits do |
| EnvParser.RadixTenDigit | src/core/env-parser.ts:27 | radix-10 digits are the decimal digits |
| EnvParser.TrimStartAtDigit | src/core/env-parser.ts:27 | leading-space skipping leaves text that starts with a digit alone |
| EnvParser.ParseIntAtDigit | src/core/env-parser.ts:27 | text starting with a digit has no sign |
| EnvParser.ParseIntOfNat | src/core/env-parser.ts:27 | `parseInt` reads back the decimal text of every natural number |
| EnvParser.DefaultPortDigits | src/core/env-parser.ts:27 | "5432" is the decimal text of 5432 |
| EnvParser.TrailingTextIgnored | src/core/env-parser.ts:27 | "5432abc" reads as 5432 |
| EnvParser.GetDbConfig | src/core/env-parser.ts:16-48 | no `.env` gives null; otherwise a configuration exactly when host, user and database are non-empty, always of type postgres |
| EnvParser.ConfigSettings | src/core/env-parser.ts:26-41 | each field is its fallback chain's value, the port is `parseInt` of the port text, and an empty password is POSTGRES_PASSWORD's value |
| EnvParser.DefaultPortValue | src/core/env-parser.ts:27 | the default port text reads as 5432 |
| EnvParser.DefaultPort | src/core/env-parser.ts:27 | with neither port key set the port is 5432 |
| EnvParser.PortFromDbPort | src/core/env-parser.ts:27 | a decimal DB_PORT is the port |
| EnvParser.HostPrecedence | src/core/env-parser.ts:26 | DB_HOST wins over POSTGRES_HOST; an empty DB_HOST falls through |
| EnvParser.PasswordOptional | src/core/env-parser.ts:29-41 | host, user and database suffice; with no password key the password is absent |
| DbConnection.ClientFor | src/core/db-connection.ts:16-23 | the client gets the configuration's settings and a 5000 ms connection timeout |
| DbConnection.Sanitize | src/core/db-connection.ts:59 | `replace(/[^a-zA-Z0-9_.]/g, '')`: only name characters remain, nothing grows |
| DbConnection.SanitizeCounts | src/core/db-connection.ts:59 | every name character is kept as often as it occurs and every other one is dropped |
| DbConnection.SanitizeAppend | src/core/db-connection.ts:59 | the sanitiser works piece by piece, so kept characters stay in order |
| DbConnection.SanitizeKeepsName | src/core/db-connection.ts:59 | a name of name characters is left alone |
| DbConnection.SanitizeIdempotent | src/core/db-connection.ts:59 | sanitising twice is sanitising once |
| DbConnection.PreviewQueryShape | src/core/db-connection.ts:60 | the query is "SELECT * FROM ", one space-free word, " LIMIT ", the limit, with no ';' and no quote anywhere |
| DbConnection.InjectionStripped | src/core/db-connection.ts:59 | "a; b" is cut down to "ab" |
| DbConnection.DatabaseService.constructor | src/core/db-connection.ts:5-8 | no client, not connected |
| DbConnection.DatabaseService.Connect | src/core/db-connection.ts:10-32 | a non-postgres type fails with nothing changed; otherwise the client is created from the configuration and success is whether it connects; only success marks the service connected |
| DbConnection.DatabaseService.ExecuteQuery | src/core/db-connection.ts:34-45 | "Database not connected" unless a client is connected; otherwise the query's outcome |
| DbConnection.DatabaseService.Disconnect | src/core/db-connection.ts:47-52 | afterwards not connected with the client kept; without a connection nothing changes |
| DbConnection.DatabaseService.PreviewTable | src/core/db-connection.ts:57-61 | the outcome of "SELECT * FROM" the sanitised name "LIMIT" the limit (20 by default), or the not-connected error |

## Left out

- JSON object key order and HTTP header order: objects and headers are maps.
- JsonValue: numbers are integers. Fractional JSON numbers and exponents are not modelled. The generated payloads only hold 0, but a request body that `JSON.parse` reads into a fraction has no value in the model.
- CodeAction.QuickFixHasLensInDocument: stated for documents whose lines end with "\n". Lines ending with "\r\n" are not covered.
- Case mapping covers ASCII letters only. `toUpperCase` and `toLowerCase` on other letters are not modelled.
- ApiTree.SortByLabel: `localeCompare` is replaced by code-point order. The permutation, the ordering under that order and stability are stated, not the locale's collation. Two labels that the locale counts as equal but whose code points differ are not treated as ties.
- Base64 encoding, `encodeURIComponent` and `JSON.parse` are parameters of the request preparation, not definitions.
- The ISO timestamp `new Date().toISOString()` of date fields is the parameter `now`.
- The asynchronous parts of the tree scan are not modelled: the progress notification, the 10 ms yield every fifth file, and a refresh racing a scan in progress. The scan is modelled as one step.
- ts-morph itself is not modelled: parsing, type checking and `sourceFile.forget()`. A file on disk is given as its class declarations. Reading a missing or unparsable file is none.
- The `.env` file: `dotenv.parse`, `fs.existsSync` and `path.join` are not modelled. The variables arrive as a map, and a missing or unreadable file arrives as none.
- DbConnection.DatabaseService.Connect: the pg client's network connection is the parameter `clientConnects`.
- DbConnection.DatabaseService.ExecuteQuery: the rows a query returns are the parameter `run`.
- DbConnection.DatabaseService.Disconnect: the client's `end()` is not modelled.
- Logging to the console in the error paths is not modelled.
- EnvParser.ParseInt: covers integers only. A fraction, an exponent and `Infinity` never arise in a port setting.
- DbConnection.DatabaseService.PreviewTable: `limit` is an integer; a fractional JavaScript number is not modelled.
- Extension.OpenPanel: the calls at extension.ts lines 66, 89 and 90 use argument lists that differ from the current `readController`, `readDto` and `generateSkeletonPayload` signatures. Their results are the parameters `analyze` and `payloadFor`, each none when the call throws.
- `RequestPanel.updatePayload`, the webview HTML, the message dispatch by command name and the handling of the axios response are not modelled. Also left out: the timing, `_formatHeaders` and the error message built after a failed request.
- `ai-service` and `api-analyzer` are not part of this model, and neither are the `api-tester.analyze` command and the extension's activation wiring.
- ApiTree.BaseName: only '/' separates path segments, as in POSIX `path.basename`. The Windows separator `\` is not modelled, and neither is the treatment of trailing separators.
- Panel.RequestPanel.Dispose: the `if (disposable)` test is always true for the subscriptions the panel registers, so it is not a separate branch.
