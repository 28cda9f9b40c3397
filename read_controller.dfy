/** read-controller.ts: the endpoints of a NestJS controller file. */
module ReadController {
  import opened Wrappers
  import opened Strings
  import opened Ast
  import ReadEntity

  /** One endpoint; lines are 0-based (ts-morph's 1-based lines minus one). */
  datatype EndpointDef = EndpointDef(
    httpMethod: string,
    route: string,
    dtoClass: Option<string>,
    dtoPath: Option<string>,
    entityClass: Option<string>,
    entityPath: Option<string>,
    tableName: Option<string>,
    params: seq<string>,
    queryParams: seq<string>,
    line: int,
    startLine: int,
    endLine: int)

  // ---------------------------------------------------------------------
  // Choosing the controller class

  predicate IsDecorated(c: ClassDecl) {
    HasDecorator(c.decorators, "Controller")
  }

  function NameOrEmpty(c: ClassDecl): string {
    if c.name.Some? then c.name.value else ""
  }

  predicate IsNamedController(c: ClassDecl) {
    Contains(NameOrEmpty(c), "Controller") && c.exported
  }

  predicate IsExported(c: ClassDecl) {
    c.exported
  }

  /** The three-stage fallback: the first `@Controller` class, else the first
      exported class whose name contains "Controller", else the last exported
      class, else nothing. */
  function SelectedController(classes: seq<ClassDecl>): (r: Option<ClassDecl>)
    ensures r.Some? ==> r.value in classes
    ensures r.None? <==> forall i :: 0 <= i < |classes| ==> !IsDecorated(classes[i]) && !classes[i].exported
  {
    match FirstWhere(classes, IsDecorated)
    case Some(i) => Some(classes[i])
    case None =>
      match FirstWhere(classes, IsNamedController)
      case Some(i) => Some(classes[i])
      case None =>
        match LastWhere(classes, IsExported)
        case Some(i) => Some(classes[i])
        case None => None
  }

  /** What each stage of the fallback picks. */
  lemma SelectedControllerStages(classes: seq<ClassDecl>)
    ensures (exists i :: 0 <= i < |classes| && IsDecorated(classes[i])) ==>
      exists i :: 0 <= i < |classes| && SelectedController(classes) == Some(classes[i]) && IsDecorated(classes[i])
        && forall j :: 0 <= j < i ==> !IsDecorated(classes[j])
    ensures ((forall i :: 0 <= i < |classes| ==> !IsDecorated(classes[i]))
             && (exists i :: 0 <= i < |classes| && IsNamedController(classes[i]))) ==>
      exists i :: 0 <= i < |classes| && SelectedController(classes) == Some(classes[i])
        && IsNamedController(classes[i]) && forall j :: 0 <= j < i ==> !IsNamedController(classes[j])
    ensures (forall i :: 0 <= i < |classes| ==> !IsDecorated(classes[i]) && !IsNamedController(classes[i])) ==>
      (SelectedController(classes).Some? <==> exists i :: 0 <= i < |classes| && classes[i].exported)
    ensures (forall i :: 0 <= i < |classes| ==> !IsDecorated(classes[i]) && !IsNamedController(classes[i])) ==>
      SelectedController(classes).Some? ==>
        exists i :: (0 <= i < |classes| && SelectedController(classes) == Some(classes[i]) && classes[i].exported
                     && forall j :: i < j < |classes| ==> !classes[j].exported)
  {
  }

  lemma FirstWhereIs<T>(s: seq<T>, p: T -> bool, i: nat)
    requires i < |s| && p(s[i]) && forall j :: 0 <= j < i ==> !p(s[j])
    ensures FirstWhere(s, p) == Some(i)
  {
  }

  /** The selection loops of `readController` (two `for` loops with `break`,
      then the last element of the exported classes). */
  method SelectControllerClass(classes: seq<ClassDecl>) returns (controller: Option<ClassDecl>)
    ensures controller == SelectedController(classes)
  {
    controller := None;
    for i := 0 to |classes|
      invariant forall j :: 0 <= j < i ==> !IsDecorated(classes[j])
    {
      if IsDecorated(classes[i]) {
        FirstWhereIs(classes, IsDecorated, i);
        controller := Some(classes[i]);
        return;
      }
    }
    assert FirstWhere(classes, IsDecorated).None?;
    for i := 0 to |classes|
      invariant forall j :: 0 <= j < i ==> !IsNamedController(classes[j])
    {
      var className := NameOrEmpty(classes[i]);
      if Contains(className, "Controller") && classes[i].exported {
        FirstWhereIs(classes, IsNamedController, i);
        controller := Some(classes[i]);
        return;
      }
    }
    assert FirstWhere(classes, IsNamedController).None?;
    var exportedClasses := Filter(classes, IsExported);
    LastOfFilter(classes, IsExported);
    if |exportedClasses| > 0 {
      controller := Some(exportedClasses[|exportedClasses| - 1]);
    }
  }

  // ---------------------------------------------------------------------
  // Routes

  /** The text of a decorator's first argument with quotes removed and
      trimmed, or "" when it has no argument. */
  function RouteArgument(d: Decorator): (r: string)
    ensures |d.arguments| == 0 ==> r == ""
    ensures |d.arguments| > 0 ==> IsCore(StripQuotes(d.arguments[0]), r)
    ensures forall k :: 0 <= k < |r| ==> !IsQuote(r[k])
    ensures r == "" || (!IsWhitespace(r[0]) && !IsWhitespace(r[|r| - 1]))
  {
    if |d.arguments| > 0 then
      TrimNoQuote(StripQuotes(d.arguments[0]));
      Trim(StripQuotes(d.arguments[0]))
    else ""
  }

  /** The base route: the first argument of the first `@Controller`, with
      its quotes removed and trimmed; "" without the decorator or without an
      argument. */
  function BaseRoute(c: ClassDecl): (r: string)
    ensures GetDecorator(c.decorators, "Controller").None? ==> r == ""
    ensures GetDecorator(c.decorators, "Controller").Some? ==>
      var d := GetDecorator(c.decorators, "Controller").value;
      && (|d.arguments| == 0 ==> r == "")
      && (|d.arguments| > 0 ==> r == Trim(StripQuotes(d.arguments[0])))
    ensures forall k :: 0 <= k < |r| ==> r[k] != '\'' && r[k] != '"'
    ensures r != "" ==> !IsWhitespace(r[0]) && !IsWhitespace(r[|r| - 1])
  {
    match GetDecorator(c.decorators, "Controller")
    case None => ""
    case Some(d) => RouteArgument(d)
  }

  predicate NoDoubleSlash(s: string) {
    forall i :: 0 <= i < |s| - 1 ==> !(s[i] == '/' && s[i + 1] == '/')
  }

  /** `s` with every '/' removed: the text a route's slashes separate. */
  function Unslashed(s: string): (r: string)
    ensures |r| <= |s|
  {
    if |s| == 0 then ""
    else (if s[0] == '/' then "" else [s[0]]) + Unslashed(s[1..])
  }

  lemma {:induction false} UnslashedAppend(a: string, b: string)
    ensures Unslashed(a + b) == Unslashed(a) + Unslashed(b)
  {
    if |a| > 0 {
      assert (a + b)[1..] == a[1..] + b;
      UnslashedAppend(a[1..], b);
    } else {
      assert a + b == b;
    }
  }

  /** `s.replace(/\/+/g, "/")`: every run of slashes becomes one slash. */
  function CollapseSlashes(s: string): (r: string)
    ensures NoDoubleSlash(r)
    ensures |r| <= |s|
    ensures |s| > 0 ==> |r| > 0 && r[0] == s[0]
  {
    if |s| < 2 then s
    else if s[0] == '/' && s[1] == '/' then CollapseSlashes(s[1..])
    else [s[0]] + CollapseSlashes(s[1..])
  }

  /** Collapsing keeps the text between the slashes, and a slash remains
      exactly where there was one. */
  lemma {:induction false} CollapseKeepsText(s: string)
    ensures Unslashed(CollapseSlashes(s)) == Unslashed(s)
    ensures '/' in CollapseSlashes(s) <==> '/' in s
    decreases |s|
  {
    if |s| >= 2 {
      CollapseKeepsText(s[1..]);
      if s[0] == '/' && s[1] == '/' {
        assert s[1..][1..] == s[2..];
      } else {
        var t := CollapseSlashes(s[1..]);
        assert ([s[0]] + t)[1..] == t;
      }
      assert '/' in s <==> s[0] == '/' || '/' in s[1..];
    }
  }

  /** Collapsing works piece by piece across a point after a non-slash. */
  lemma {:induction false} CollapseAppend(a: string, b: string)
    requires |a| > 0 && a[|a| - 1] != '/'
    ensures CollapseSlashes(a + b) == CollapseSlashes(a) + CollapseSlashes(b)
  {
    if |a| == 1 {
      if |b| > 0 {
        assert (a + b)[1..] == b;
      } else {
        assert a + b == a;
      }
    } else {
      assert (a + b)[1..] == a[1..] + b;
      CollapseAppend(a[1..], b);
    }
  }

  /** A run of n >= 1 slashes followed by slash-free text becomes one slash
      followed by that text. */
  lemma {:induction false} CollapseRun(n: nat, w: string)
    requires n >= 1 && '/' !in w
    ensures CollapseSlashes(seq(n, _ => '/') + w) == "/" + w
    decreases n
  {
    var s := seq(n, _ => '/') + w;
    if n == 1 {
      assert s[1..] == w;
      assert NoDoubleSlash(s) by {
        forall i | 0 <= i < |s| - 1 ensures !(s[i] == '/' && s[i + 1] == '/') {
          assert s[i + 1] == w[i];
        }
      }
      CollapseFixpoint(s);
      assert s == "/" + w;
    } else {
      assert s[1..] == seq(n - 1, _ => '/') + w;
      CollapseRun(n - 1, w);
    }
  }

  /** A string without doubled slashes is left as it is by the collapse. */
  lemma {:induction false} CollapseFixpoint(s: string)
    requires NoDoubleSlash(s)
    ensures CollapseSlashes(s) == s
  {
    if |s| >= 2 {
      assert NoDoubleSlash(s[1..]) by {
        forall i | 0 <= i < |s[1..]| - 1 ensures !(s[1..][i] == '/' && s[1..][i + 1] == '/') {
          assert s[1..][i] == s[i + 1] && s[1..][i + 1] == s[i + 2];
        }
      }
      CollapseFixpoint(s[1..]);
    }
  }

  /** `s.replace(/\/$/, "")`: one trailing slash removed. */
  function StripTrailingSlash(s: string): string {
    if |s| > 0 && s[|s| - 1] == '/' then s[..|s| - 1] else s
  }

  /** Route normalisation: collapse slash runs, then drop one trailing slash. */
  function NormalizeRoute(s: string): (r: string)
    ensures NoDoubleSlash(r)
    ensures r == "" || r[|r| - 1] != '/'
    ensures |s| > 0 && s[0] == '/' ==> r == "" || r[0] == '/'
  {
    var c := CollapseSlashes(s);
    assert |c| >= 2 && c[|c| - 1] == '/' ==> c[|c| - 2] != '/';
    StripTrailingSlash(c)
  }

  /** Normalisation keeps the text between the slashes. */
  lemma NormalizeKeepsText(s: string)
    ensures Unslashed(NormalizeRoute(s)) == Unslashed(s)
  {
    CollapseKeepsText(s);
    StripKeepsText(CollapseSlashes(s));
  }

  lemma StripKeepsText(c: string)
    ensures Unslashed(StripTrailingSlash(c)) == Unslashed(c)
  {
    if |c| > 0 && c[|c| - 1] == '/' {
      var p := c[..|c| - 1];
      assert c == p + ['/'];
      UnslashedAppend(p, ['/']);
      UnslashedOfSlash();
    }
  }

  lemma UnslashedOfSlash()
    ensures Unslashed(['/']) == []
  {
    assert ['/'][1..] == [];
  }

  lemma {:induction false} NormalizeIdempotent(s: string)
    ensures NormalizeRoute(NormalizeRoute(s)) == NormalizeRoute(s)
  {
    var r := NormalizeRoute(s);
    CollapseFixpoint(r);
  }

  /** `/${base}/${sub}` when the base is non-empty, else `/${sub}`, normalised. */
  function ComposeRoute(base: string, sub: string): (r: string)
    ensures NoDoubleSlash(r)
    ensures r == "" || (r[0] == '/' && r[|r| - 1] != '/')
  {
    NormalizeRoute(if base != "" then "/" + base + "/" + sub else "/" + sub)
  }

  /** The text between the slashes of a composed route is the base's
      followed by the sub-route's. */
  lemma ComposeKeepsText(base: string, sub: string)
    ensures Unslashed(ComposeRoute(base, sub)) == Unslashed(base) + Unslashed(sub)
  {
    if base != "" {
      SlashPairKeepsText(base, sub);
      NormalizeKeepsText("/" + base + "/" + sub);
    } else {
      SlashPrefix(sub);
      NormalizeKeepsText("/" + sub);
    }
  }

  lemma SlashPrefix(x: string)
    ensures Unslashed("/" + x) == Unslashed(x)
  {
    assert ("/" + x)[1..] == x;
  }

  lemma SlashPairKeepsText(x: string, y: string)
    ensures Unslashed("/" + x + "/" + y) == Unslashed(x) + Unslashed(y)
  {
    assert "/" + x + "/" + y == ("/" + x) + ("/" + y);
    UnslashedAppend("/" + x, "/" + y);
    SlashPrefix(x);
    SlashPrefix(y);
  }

  /** For slash-free parts: "/base/sub", "/base", "/sub", or "" when both are
      empty. */
  lemma ComposePlain(base: string, sub: string)
    requires '/' !in base && '/' !in sub
    ensures ComposeRoute(base, sub) ==
      if base != "" && sub != "" then "/" + base + "/" + sub
      else if base != "" then "/" + base
      else if sub != "" then "/" + sub
      else ""
  {
    if base != "" {
      var s := "/" + base + "/" + sub;
      assert NoDoubleSlash(s) by {
        forall i | 0 <= i < |s| - 1 ensures !(s[i] == '/' && s[i + 1] == '/') {
          if i == 0 { assert s[1] == base[0]; }
          else if i < |base| { assert s[i] == base[i - 1]; }
          else if i == |base| { assert s[i] == base[i - 1]; }
          else { assert s[i + 1] == sub[i - |base| - 1]; }
        }
      }
      CollapseFixpoint(s);
      if sub == "" { assert s[..|s| - 1] == "/" + base; }
    } else {
      var s := "/" + sub;
      assert NoDoubleSlash(s) by {
        forall i | 0 <= i < |s| - 1 ensures !(s[i] == '/' && s[i + 1] == '/') {
          assert s[i + 1] == sub[i];
        }
      }
      CollapseFixpoint(s);
    }
  }

  lemma RouteExampleBaseOnly()
    ensures ComposeRoute("users", "") == "/users"
  {
    assert "/" + "users" + "/" + "" == "/users/";
    CollapseFixpoint("/users/");
  }

  lemma RouteExampleSubOnly()
    ensures ComposeRoute("", "profile/") == "/profile"
  {
    assert "/" + "profile/" == "/profile/";
    CollapseFixpoint("/profile/");
  }

  lemma RouteExampleEmpty()
    ensures ComposeRoute("", "") == ""
  {
    assert "/" + "" == "/";
  }

  lemma RouteExampleBoth()
    ensures ComposeRoute("users", "list") == "/users/list"
  {
    assert "/" + "users" + "/" + "list" == "/users/list";
    CollapseFixpoint("/users/list");
  }

  // ---------------------------------------------------------------------
  // One endpoint per verb-decorated method

  const HttpVerbs: seq<string> := ["Post", "Get", "Put", "Delete", "Patch", "Options", "Head", "All"]

  predicate IsHttpDecorator(d: Decorator) {
    d.name in HttpVerbs
  }

  /** The first decorator whose name is one of the HTTP verbs. */
  function HttpDecorator(m: MethodDecl): (r: Option<Decorator>)
    ensures r.None? <==> forall i :: 0 <= i < |m.decorators| ==> !IsHttpDecorator(m.decorators[i])
    ensures r.Some? ==> exists i :: (0 <= i < |m.decorators| && r.value == m.decorators[i]
      && IsHttpDecorator(m.decorators[i]) && forall j :: 0 <= j < i ==> !IsHttpDecorator(m.decorators[j]))
  {
    match FirstWhere(m.decorators, IsHttpDecorator)
    case None => None
    case Some(i) => Some(m.decorators[i])
  }

  predicate IsBodyParam(p: Parameter) {
    HasDecorator(p.decorators, "Body")
  }

  predicate IsPathParam(p: Parameter) {
    HasDecorator(p.decorators, "Param")
  }

  predicate IsQueryParam(p: Parameter) {
    HasDecorator(p.decorators, "Query")
  }

  /** dtoClass and dtoPath: the type symbol of the first `@Body` parameter and
      the file of its first declaration. */
  function BodyDto(m: MethodDecl): (r: (Option<string>, Option<string>))
    ensures r.1.Some? ==> r.0.Some?
    ensures (forall i :: 0 <= i < |m.parameters| ==> !IsBodyParam(m.parameters[i])) ==> r == (None, None)
    ensures FirstWhere(m.parameters, IsBodyParam).Some? ==>
      var sym := m.parameters[FirstWhere(m.parameters, IsBodyParam).value].paramType.symbol;
      && (sym.None? ==> r == (None, None))
      && (sym.Some? ==> r.0 == Some(sym.value.name))
      && (sym.Some? && |sym.value.declarationPaths| > 0 ==> r.1 == Some(sym.value.declarationPaths[0]))
      && (sym.Some? && |sym.value.declarationPaths| == 0 ==> r.1.None?)
  {
    match FirstWhere(m.parameters, IsBodyParam)
    case None => (None, None)
    case Some(i) =>
      match m.parameters[i].paramType.symbol
      case None => (None, None)
      case Some(sym) =>
        (Some(sym.name), if |sym.declarationPaths| > 0 then Some(sym.declarationPaths[0]) else None)
  }

  /** entityClass, entityPath and tableName from the return type's symbol; the
      entity file is read only when its path contains ".entity.", and an empty
      table name is dropped like a missing one. */
  function EntityInfo(m: MethodDecl, disk: Disk): (r: (Option<string>, Option<string>, Option<string>))
    ensures r.1.Some? ==> r.0.Some?
    ensures r.2.Some? ==> r.1.Some? && Contains(r.1.value, ".entity.") && r.2.value != ""
    ensures r.2.Some? ==> r.2 == ReadEntity.GetTableNameFromEntity(disk, r.1.value, r.0.value)
    ensures m.returnType.symbol.None? ==> r == (None, None, None)
    ensures m.returnType.symbol.Some? ==>
      var sym := m.returnType.symbol.value;
      && r.0 == Some(sym.name)
      && (|sym.declarationPaths| > 0 ==> r.1 == Some(sym.declarationPaths[0]))
      && (|sym.declarationPaths| == 0 ==> r.1.None?)
    ensures r.1.Some? && Contains(r.1.value, ".entity.")
            && Truthy(ReadEntity.GetTableNameFromEntity(disk, r.1.value, r.0.value)) ==>
      r.2 == ReadEntity.GetTableNameFromEntity(disk, r.1.value, r.0.value)
  {
    match m.returnType.symbol
    case None => (None, None, None)
    case Some(sym) =>
      if |sym.declarationPaths| == 0 then (Some(sym.name), None, None)
      else
        var entityPath := sym.declarationPaths[0];
        var table :=
          if Contains(entityPath, ".entity.") then
            var found := ReadEntity.GetTableNameFromEntity(disk, entityPath, sym.name);
            if Truthy(found) then found else None
          else None;
        (Some(sym.name), Some(entityPath), table)
  }

  function ParamName(p: Parameter): string {
    p.name
  }

  /** The name a `@Query` parameter is sent under: the decorator's first
      argument without quotes, trimmed, else the parameter's own name. */
  function QueryName(p: Parameter): (r: string)
    ensures GetDecorator(p.decorators, "Query").Some? && |GetDecorator(p.decorators, "Query").value.arguments| > 0 ==>
      r == RouteArgument(GetDecorator(p.decorators, "Query").value)
    ensures GetDecorator(p.decorators, "Query").None? || |GetDecorator(p.decorators, "Query").value.arguments| == 0 ==>
      r == p.name
  {
    match GetDecorator(p.decorators, "Query")
    case Some(d) => if |d.arguments| > 0 then RouteArgument(d) else p.name
    case None => p.name
  }

  /** The names of the `@Param` parameters, in declaration order. */
  function PathParams(ps: seq<Parameter>): (r: seq<string>)
    ensures |r| == |Filter(ps, IsPathParam)|
    ensures forall k :: 0 <= k < |r| ==> r[k] == Filter(ps, IsPathParam)[k].name
  {
    Map(Filter(ps, IsPathParam), ParamName)
  }

  /** The names of the `@Query` parameters, in declaration order. */
  function QueryParams(ps: seq<Parameter>): (r: seq<string>)
    ensures |r| == |Filter(ps, IsQueryParam)|
    ensures forall k :: 0 <= k < |r| ==> r[k] == QueryName(Filter(ps, IsQueryParam)[k])
  {
    Map(Filter(ps, IsQueryParam), QueryName)
  }

  /** The endpoint a method yields, if it carries a verb decorator. */
  function EndpointOf(m: MethodDecl, baseRoute: string, disk: Disk): (r: Option<EndpointDef>)
    ensures r.Some? <==> exists i :: 0 <= i < |m.decorators| && IsHttpDecorator(m.decorators[i])
    ensures r.Some? ==>
      var d := HttpDecorator(m).value;
      && r.value.httpMethod == ToUpper(d.name)
      && r.value.route == ComposeRoute(baseRoute, RouteArgument(d))
      && r.value.line == d.line - 1
      && r.value.startLine == m.startLine - 1
      && r.value.endLine == m.endLine - 1
      && r.value.params == PathParams(m.parameters)
      && r.value.queryParams == QueryParams(m.parameters)
      && (r.value.dtoClass, r.value.dtoPath) == BodyDto(m)
      && (r.value.entityClass, r.value.entityPath, r.value.tableName) == EntityInfo(m, disk)
  {
    match HttpDecorator(m)
    case None => None
    case Some(d) =>
      var dto := BodyDto(m);
      var entity := EntityInfo(m, disk);
      Some(EndpointDef(
        ToUpper(d.name),
        ComposeRoute(baseRoute, RouteArgument(d)),
        dto.0, dto.1,
        entity.0, entity.1, entity.2,
        PathParams(m.parameters),
        QueryParams(m.parameters),
        d.line - 1,
        m.startLine - 1,
        m.endLine - 1))
  }

  const UpperVerbs: seq<string> := ["POST", "GET", "PUT", "DELETE", "PATCH", "OPTIONS", "HEAD", "ALL"]

  /** An endpoint's method is one of the eight upper-cased verbs. */
  lemma UpperVerb(v: string)
    requires v in HttpVerbs
    ensures ToUpper(v) in UpperVerbs
  {
    if v == "Post" { assert ToUpper(v) == "POST"; }
    else if v == "Get" { assert ToUpper(v) == "GET"; }
    else if v == "Put" { assert ToUpper(v) == "PUT"; }
    else if v == "Delete" { assert ToUpper(v) == "DELETE"; }
    else if v == "Patch" { assert ToUpper(v) == "PATCH"; }
    else if v == "Options" { assert ToUpper(v) == "OPTIONS"; }
    else if v == "Head" { assert ToUpper(v) == "HEAD"; }
    else { assert ToUpper(v) == "ALL"; }
  }

  /** An endpoint's method is one of the eight upper-cased verbs. */
  lemma HttpMethodIsVerb(m: MethodDecl, baseRoute: string, disk: Disk)
    requires EndpointOf(m, baseRoute, disk).Some?
    ensures EndpointOf(m, baseRoute, disk).value.httpMethod in UpperVerbs
  {
    UpperVerb(HttpDecorator(m).value.name);
  }

  /** The endpoints of `methods`, in declaration order. */
  function CollectEndpoints(methods: seq<MethodDecl>, baseRoute: string, disk: Disk): (r: seq<EndpointDef>)
    ensures |r| <= |methods|
  {
    if |methods| == 0 then []
    else
      var last := methods[|methods| - 1];
      CollectEndpoints(methods[..|methods| - 1], baseRoute, disk) + EndpointsOf(last, baseRoute, disk)
  }

  /** The endpoint a method yields, as a list of none or one. */
  function EndpointsOf(m: MethodDecl, baseRoute: string, disk: Disk): seq<EndpointDef> {
    match EndpointOf(m, baseRoute, disk) case None => [] case Some(e) => [e]
  }

  predicate HasHttpDecorator(m: MethodDecl) {
    exists i :: 0 <= i < |m.decorators| && IsHttpDecorator(m.decorators[i])
  }

  /** Collecting distributes over concatenation, so endpoints keep the order
      of their methods. */
  lemma CollectAppend(a: seq<MethodDecl>, b: seq<MethodDecl>, baseRoute: string, disk: Disk)
    ensures CollectEndpoints(a + b, baseRoute, disk)
         == CollectEndpoints(a, baseRoute, disk) + CollectEndpoints(b, baseRoute, disk)
  {
    var f := (m: MethodDecl) => EndpointsOf(m, baseRoute, disk);
    CollectIsFlatMap(a + b, baseRoute, disk);
    CollectIsFlatMap(a, baseRoute, disk);
    CollectIsFlatMap(b, baseRoute, disk);
    FlatMapAppend(a, b, f);
  }

  /** Collecting is flattening the lists the methods yield. */
  lemma {:induction false} CollectIsFlatMap(ms: seq<MethodDecl>, baseRoute: string, disk: Disk)
    ensures CollectEndpoints(ms, baseRoute, disk) == FlatMap(ms, (m: MethodDecl) => EndpointsOf(m, baseRoute, disk))
  {
    if |ms| > 0 {
      CollectIsFlatMap(ms[..|ms| - 1], baseRoute, disk);
    }
  }

  /** One endpoint per method that carries a verb decorator, and the k-th
      endpoint is the one its method yields. */
  lemma CollectIsFilter(methods: seq<MethodDecl>, baseRoute: string, disk: Disk)
    ensures |CollectEndpoints(methods, baseRoute, disk)| == |Filter(methods, HasHttpDecorator)|
    ensures forall k :: 0 <= k < |CollectEndpoints(methods, baseRoute, disk)| ==>
      EndpointOf(Filter(methods, HasHttpDecorator)[k], baseRoute, disk)
        == Some(CollectEndpoints(methods, baseRoute, disk)[k])
  {
    var f := (m: MethodDecl) => EndpointsOf(m, baseRoute, disk);
    var g := (m: MethodDecl) => EndpointOf(m, baseRoute, disk);
    CollectIsFlatMap(methods, baseRoute, disk);
    FlatMapFilter(methods, f, g, HasHttpDecorator);
  }

  /** `readController(sourceFile)`, with the disk for the entity lookups. */
  function ReadControllerSpec(classes: seq<ClassDecl>, disk: Disk): (r: seq<EndpointDef>)
    ensures SelectedController(classes).None? ==> r == []
  {
    match SelectedController(classes)
    case None => []
    case Some(c) => CollectEndpoints(c.methods, BaseRoute(c), disk)
  }

  /** `readController`: select the class, then push one endpoint per
      verb-decorated method. */
  method ReadController(classes: seq<ClassDecl>, disk: Disk) returns (endpoints: seq<EndpointDef>)
    ensures endpoints == ReadControllerSpec(classes, disk)
  {
    var controllerClass := SelectControllerClass(classes);
    if controllerClass.None? {
      return [];
    }
    var c := controllerClass.value;
    var baseRoute := BaseRoute(c);
    endpoints := [];
    for i := 0 to |c.methods|
      invariant endpoints == CollectEndpoints(c.methods[..i], baseRoute, disk)
    {
      assert c.methods[..i + 1][..i] == c.methods[..i];
      var endpoint := EndpointOf(c.methods[i], baseRoute, disk);
      if endpoint.Some? {
        endpoints := endpoints + [endpoint.value];
      }
    }
    assert c.methods[..|c.methods|] == c.methods;
  }

  // `@Controller('users')` on a class whose one method carries `@Get('list')`.
  const ControllerUsers := Decorator("Controller", ["'users'"], 1)
  const GetList := Decorator("Get", ["'list'"], 3)

  function UsersController(): ClassDecl {
    var noType := TypeInfo("void", false, false, false, false, None, None, None);
    ClassDecl(Some("UsersController"), true, [ControllerUsers], [MethodDecl([GetList], [], noType, 4, 6)], [])
  }

  lemma StripUsers()
    ensures StripQuotes("'users'") == "users"
  {
  }

  lemma StripList()
    ensures StripQuotes("'list'") == "list"
  {
  }

  lemma TrimUsers()
    ensures Trim("users") == "users"
  {
    var s := "users";
    assert !IsWhitespace(s[0]) && !IsWhitespace(s[|s| - 1]);
  }

  lemma TrimList()
    ensures Trim("list") == "list"
  {
    var s := "list";
    assert !IsWhitespace(s[0]) && !IsWhitespace(s[|s| - 1]);
  }

  lemma RouteArgumentUsers()
    ensures RouteArgument(ControllerUsers) == "users"
  {
    StripUsers();
    TrimUsers();
  }

  lemma RouteArgumentList()
    ensures RouteArgument(GetList) == "list"
  {
    StripList();
    TrimList();
  }

  lemma UsersBaseRoute()
    ensures BaseRoute(UsersController()) == "users"
  {
    RouteArgumentUsers();
    assert GetDecorator([ControllerUsers], "Controller") == Some(ControllerUsers);
  }

  lemma ListDecorator()
    ensures HttpDecorator(UsersController().methods[0]) == Some(GetList)
  {
    assert "Get" in HttpVerbs;
    assert IsHttpDecorator(GetList);
  }

  lemma ListEndpointExists()
    ensures EndpointOf(UsersController().methods[0], "users", map[]).Some?
  {
    assert IsHttpDecorator(UsersController().methods[0].decorators[0]);
  }

  lemma ListEndpointMethod()
    ensures EndpointOf(UsersController().methods[0], "users", map[]).Some?
    ensures EndpointOf(UsersController().methods[0], "users", map[]).value.httpMethod == "GET"
  {
    ListEndpointExists();
    ListDecorator();
    UpperGet();
  }

  lemma UpperGet()
    ensures ToUpper("Get") == "GET"
  {
  }

  lemma ListEndpointRoute()
    ensures EndpointOf(UsersController().methods[0], "users", map[]).Some?
    ensures EndpointOf(UsersController().methods[0], "users", map[]).value.route == "/users/list"
  {
    ListEndpointExists();
    ListDecorator();
    RouteArgumentList();
    RouteExampleBoth();
  }

  /** `@Controller('users')` with one `@Get('list')` method yields exactly
      one endpoint, GET /users/list. */
  lemma UsersListExample()
    ensures |ReadControllerSpec([UsersController()], map[])| == 1
    ensures ReadControllerSpec([UsersController()], map[])[0].httpMethod == "GET"
    ensures ReadControllerSpec([UsersController()], map[])[0].route == "/users/list"
  {
    var c := UsersController();
    assert c.decorators[0].name == "Controller";
    assert IsDecorated(c);
    assert SelectedController([c]) == Some(c);
    UsersBaseRoute();
    ListEndpointMethod();
    ListEndpointRoute();
    assert c.methods[..0] == [];
    assert CollectEndpoints(c.methods, "users", map[]) == [EndpointOf(c.methods[0], "users", map[]).value];
  }

  /** A file with no `@Controller` class, no class named like a controller
      and no exported class yields no endpoint. */
  lemma NoControllerNoEndpoints(classes: seq<ClassDecl>, disk: Disk)
    requires forall i :: 0 <= i < |classes| ==> !IsDecorated(classes[i]) && !classes[i].exported
    ensures ReadControllerSpec(classes, disk) == []
  {
  }
}
