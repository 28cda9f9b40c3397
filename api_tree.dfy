/** ApiTreeProvider.ts: the "api-routes" tree view. The root level lists one
    item per controller file that yields endpoints, scanned once and cached;
    each controller item lists its endpoints. */
module ApiTree {
  import opened Wrappers
  import opened Strings
  import opened Ast
  import opened ReadController
  import Extension

  /** A controller node: its label, its endpoints and the file it came from. */
  datatype ControllerItem = ControllerItem(name: string, endpoints: seq<EndpointDef>, filePath: string)

  /** A themed icon: the codicon name and an optional chart colour. */
  datatype Icon = Icon(id: string, color: Option<string>)

  /** An endpoint node: its caption, icon and the arguments of the
      `api-tester.openPanel` command it runs when clicked. */
  datatype EndpointItem = EndpointItem(
    caption: string,
    httpMethod: string,
    route: string,
    icon: Icon,
    commandFile: string,
    commandLine: int)

  // ---------------------------------------------------------------------
  // Labels and icons
  // ---------------------------------------------------------------------

  /** `path.basename`: what follows the last '/'. */
  function BaseName(path: string): (r: string)
    ensures forall i :: 0 <= i < |r| ==> r[i] != '/'
    ensures |r| <= |path| && r == path[|path| - |r|..]
  {
    match LastWhere(path, (c: char) => c == '/')
    case None => path
    case Some(i) => path[i + 1..]
  }

  const ControllerSuffix := ".controller.ts"
  const ControllerWord := " Controller"

  /** `s.charAt(0).toUpperCase() + s.slice(1)`. */
  function Capitalize(s: string): (r: string)
    ensures |r| == |s|
    ensures |s| > 0 ==> r[0] == UpperChar(s[0]) && r[1..] == s[1..]
  {
    if |s| == 0 then "" else [UpperChar(s[0])] + s[1..]
  }

  /** The controller label: the file's base name without its first
      ".controller.ts", capitalised, followed by " Controller". */
  function ControllerName(fsPath: string): (r: string)
    ensures |r| >= |ControllerWord| && r[|r| - |ControllerWord|..] == ControllerWord
    ensures |r| == |BaseName(fsPath)| + |ControllerWord|
               - (if Contains(BaseName(fsPath), ControllerSuffix) then |ControllerSuffix| else 0)
    ensures !Contains(BaseName(fsPath), ControllerSuffix) ==>
      r[..|BaseName(fsPath)|] == Capitalize(BaseName(fsPath))
    ensures Contains(BaseName(fsPath), ControllerSuffix) ==>
      var b := BaseName(fsPath);
      var i := IndexOf(b, ControllerSuffix).value;
      r[..|r| - |ControllerWord|] == Capitalize(b[..i] + b[i + |ControllerSuffix|..])
  {
    Capitalize(RemoveFirst(BaseName(fsPath), ControllerSuffix)) + ControllerWord
  }

  /** The base name of `<dir>/<b>` is `b` when `b` holds no '/'. */
  lemma BaseNameAfterSlash(dir: string, b: string)
    requires forall i :: 0 <= i < |b| ==> b[i] != '/'
    ensures BaseName(dir + "/" + b) == b
  {
    var path := dir + "/" + b;
    assert path[|dir|] == '/';
    assert forall j :: |dir| < j < |path| ==> path[j] == b[j - |dir| - 1];
    assert LastWhere(path, (c: char) => c == '/') == Some(|dir|);
    assert path[|dir| + 1..] == b;
  }

  /** A pattern starting with '.' is first found right after a stem holding no '.'. */
  lemma IndexAfterStem(stem: string, pat: string)
    requires |pat| > 0 && pat[0] == '.'
    requires forall i :: 0 <= i < |stem| ==> stem[i] != '.'
    ensures IndexOf(stem + pat, pat) == Some(|stem|)
  {
    var b := stem + pat;
    assert b[|stem|..] == pat;
    assert OccursAt(b, pat, |stem|);
    forall j | 0 <= j < |stem|
      ensures !OccursAt(b, pat, j)
    {
      assert b[j] == stem[j];
    }
  }

  /** A file `<dir>/<stem>.controller.ts` whose stem holds no '/' and no '.'
      is labelled with its capitalised stem followed by " Controller". */
  lemma ControllerNameOfFile(dir: string, stem: string)
    requires forall i :: 0 <= i < |stem| ==> stem[i] != '/' && stem[i] != '.'
    ensures ControllerName(dir + "/" + stem + ControllerSuffix) == Capitalize(stem) + ControllerWord
  {
    var suffix := ControllerSuffix;
    var b := stem + suffix;
    assert forall i :: 0 <= i < |suffix| ==> suffix[i] != '/';
    assert dir + "/" + stem + suffix == dir + "/" + b;
    BaseNameAfterSlash(dir, b);
    IndexAfterStem(stem, suffix);
    assert b[..|stem|] + b[|stem| + |suffix|..] == stem;
  }

  /** `src/users/users.controller.ts` is labelled "Users Controller". */
  lemma UsersControllerLabel()
    ensures ControllerName("src/users/users.controller.ts") == "Users Controller"
  {
    UsersPath();
    UsersCapitalized();
    var stem := "users";
    assert forall i :: 0 <= i < |stem| ==> stem[i] != '/' && stem[i] != '.';
    ControllerNameOfFile("src/users", stem);
  }

  lemma UsersPath()
    ensures "src/users" + "/" + "users" + ControllerSuffix == "src/users/users.controller.ts"
  {
    assert "src/users" + "/" == "src/users/";
    assert "src/users/" + "users" == "src/users/users";
  }

  lemma UsersCapitalized()
    ensures Capitalize("users") + ControllerWord == "Users Controller"
  {
    assert UpperChar('u') == 'U';
    assert "users"[1..] == "sers";
    assert Capitalize("users") == "Users";
  }

  /** The icon for a method, chosen on its upper-cased text. */
  function GetIcon(httpMethod: string): (r: Icon)
    ensures r.color.None? <==> ToUpper(httpMethod) !in ["GET", "POST", "DELETE", "PUT", "PATCH"]
    ensures r.color.None? ==> r.id == "symbol-method"
  {
    match ToUpper(httpMethod)
    case "GET" => Icon("arrow-small-right", Some("charts.green"))
    case "POST" => Icon("add", Some("charts.orange"))
    case "DELETE" => Icon("trash", Some("charts.red"))
    case "PUT" => Icon("edit", Some("charts.blue"))
    case "PATCH" => Icon("git-merge", Some("charts.purple"))
    case _ => Icon("symbol-method", None)
  }

  /** The icon does not depend on the case of the method text. */
  lemma IconIgnoresCase(httpMethod: string)
    ensures GetIcon(ToLower(httpMethod)) == GetIcon(httpMethod)
  {
    assert ToUpper(ToLower(httpMethod)) == ToUpper(httpMethod);
  }

  /** `getChildren(controllerItem)`: one item per endpoint, in order. */
  function EndpointItems(c: ControllerItem): (r: seq<EndpointItem>)
    ensures |r| == |c.endpoints|
    ensures forall i :: 0 <= i < |r| ==>
      && r[i].caption == c.endpoints[i].httpMethod + " " + c.endpoints[i].route
      && r[i].icon == GetIcon(c.endpoints[i].httpMethod)
      && r[i].commandFile == c.filePath
      && r[i].commandLine == c.endpoints[i].line
  {
    Map(c.endpoints, (e: EndpointDef) =>
      EndpointItem(e.httpMethod + " " + e.route, e.httpMethod, e.route, GetIcon(e.httpMethod), c.filePath, e.line))
  }

  /** Clicking an endpoint item opens the panel on that line, where the
      command's lookup finds an endpoint: this one or an earlier one. */
  lemma EndpointItemIsFound(c: ControllerItem, i: nat)
    requires i < |c.endpoints|
    ensures Extension.FindEndpoint(c.endpoints, EndpointItems(c)[i].commandLine).Some?
    ensures Extension.FindEndpoint(c.endpoints, EndpointItems(c)[i].commandLine).value <= i
  {
    Extension.FindOnDecoratorLine(c.endpoints, i);
  }

  // ---------------------------------------------------------------------
  // Ordering the controllers by label
  // ---------------------------------------------------------------------

  /** Code-point lexicographic order on labels. */
  predicate LabelLeq(a: string, b: string)
    decreases |a|
  {
    a == [] || (b != [] && (a[0] < b[0] || (a[0] == b[0] && LabelLeq(a[1..], b[1..]))))
  }

  lemma {:induction false} LabelLeqTotal(a: string, b: string)
    ensures LabelLeq(a, b) || LabelLeq(b, a)
    decreases |a|
  {
    if a != [] && b != [] && a[0] == b[0] {
      LabelLeqTotal(a[1..], b[1..]);
    }
  }

  /** Any label is ordered before itself. */
  lemma LabelLeqRefl(a: string)
    ensures LabelLeq(a, a)
  {
    LabelLeqTotal(a, a);
  }

  lemma {:induction false} LabelLeqTrans(a: string, b: string, c: string)
    requires LabelLeq(a, b) && LabelLeq(b, c)
    ensures LabelLeq(a, c)
    decreases |a|
  {
    if a != [] && a[0] == b[0] && b[0] == c[0] {
      LabelLeqTrans(a[1..], b[1..], c[1..]);
    }
  }

  predicate SortedByLabel(s: seq<ControllerItem>) {
    forall i :: 0 < i < |s| ==> LabelLeq(s[i - 1].name, s[i].name)
  }

  /** In a sorted list every label is ordered after the first. */
  lemma {:induction false} SortedFromHead(s: seq<ControllerItem>)
    requires SortedByLabel(s) && |s| > 0
    ensures forall j :: 0 <= j < |s| ==> LabelLeq(s[0].name, s[j].name)
  {
    if |s| == 1 {
      LabelLeqRefl(s[0].name);
    } else {
      var init := s[..|s| - 1];
      SortedFromHead(init);
      assert init[0] == s[0] && init[|init| - 1] == s[|s| - 2];
      LabelLeqTrans(s[0].name, s[|s| - 2].name, s[|s| - 1].name);
      forall j | 0 <= j < |s| ensures LabelLeq(s[0].name, s[j].name) {
        if j < |s| - 1 {
          assert s[j] == init[j];
        }
      }
    }
  }

  /** `x` inserted into a sorted list after every item whose label is not
      greater than its own, so an item with an equal label stays in front. */
  function Insert(x: ControllerItem, s: seq<ControllerItem>): (r: seq<ControllerItem>)
    requires SortedByLabel(s)
    ensures multiset(r) == multiset(s) + multiset{x}
    ensures SortedByLabel(r)
    ensures r[0] == x || (|s| > 0 && r[0] == s[0])
  {
    if |s| == 0 || !LabelLeq(s[0].name, x.name) then
      LabelLeqTotal(x.name, if |s| == 0 then x.name else s[0].name);
      [x] + s
    else
      var rest := Insert(x, s[1..]);
      assert s == [s[0]] + s[1..];
      [s[0]] + rest
  }

  /** The items of `s` labelled `l`, in order. */
  function WithLabel(s: seq<ControllerItem>, l: string): (r: seq<ControllerItem>)
    ensures |r| <= |s|
  {
    if |s| == 0 then []
    else (if s[0].name == l then [s[0]] else []) + WithLabel(s[1..], l)
  }

  lemma {:induction false} WithLabelAppend(a: seq<ControllerItem>, b: seq<ControllerItem>, l: string)
    ensures WithLabel(a + b, l) == WithLabel(a, l) + WithLabel(b, l)
  {
    if |a| > 0 {
      assert (a + b)[0] == a[0] && (a + b)[1..] == a[1..] + b;
      WithLabelAppend(a[1..], b, l);
    } else {
      assert a + b == b;
    }
  }

  lemma {:induction false} NoneLabelled(s: seq<ControllerItem>, l: string)
    requires forall j :: 0 <= j < |s| ==> s[j].name != l
    ensures WithLabel(s, l) == []
  {
    if |s| > 0 {
      NoneLabelled(s[1..], l);
    }
  }

  /** Inserting puts `x` after every item with its label: among the items
      labelled `l`, the order is that of `s` followed by `x`. */
  lemma {:induction false} InsertStable(x: ControllerItem, s: seq<ControllerItem>, l: string)
    requires SortedByLabel(s)
    ensures WithLabel(Insert(x, s), l) == WithLabel(s, l) + WithLabel([x], l)
  {
    if |s| == 0 || !LabelLeq(s[0].name, x.name) {
      InsertFrontStable(x, s, l);
    } else {
      InsertStable(x, s[1..], l);
      ConsStable(s[0], Insert(x, s[1..]), s[1..], x, l);
      assert Insert(x, s) == [s[0]] + Insert(x, s[1..]);
      assert s == [s[0]] + s[1..];
    }
  }

  /** `x` goes in front only of items with greater labels, none labelled as
      it is. */
  lemma InsertFrontStable(x: ControllerItem, s: seq<ControllerItem>, l: string)
    requires SortedByLabel(s) && (|s| == 0 || !LabelLeq(s[0].name, x.name))
    ensures WithLabel(Insert(x, s), l) == WithLabel(s, l) + WithLabel([x], l)
  {
    var r := [x] + s;
    assert Insert(x, s) == r;
    assert r[0] == x && r[1..] == s && [x][1..] == [];
    var own := if x.name == l then [x] else [];
    assert WithLabel([x], l) == own + [];
    assert WithLabel(r, l) == own + WithLabel(s, l);
    if x.name == l {
      if |s| > 0 {
        SortedFromHead(s);
        NoneLabelled(s, l);
      }
      assert WithLabel(s, l) == [];
    }
  }

  /** An item put in front of two lists whose labelled parts agree up to a
      trailing `x` keeps them agreeing. */
  lemma ConsStable(a: ControllerItem, rest: seq<ControllerItem>, tail: seq<ControllerItem>, x: ControllerItem, l: string)
    requires WithLabel(rest, l) == WithLabel(tail, l) + WithLabel([x], l)
    ensures WithLabel([a] + rest, l) == WithLabel([a] + tail, l) + WithLabel([x], l)
  {
    var r, t := [a] + rest, [a] + tail;
    assert r[0] == a && r[1..] == rest;
    assert t[0] == a && t[1..] == tail;
    var head := if a.name == l then [a] else [];
    assert WithLabel(r, l) == head + (WithLabel(tail, l) + WithLabel([x], l));
    assert WithLabel(t, l) == head + WithLabel(tail, l);
  }

  /** The cache after `sort`: the same items, ordered by label. */
  function SortByLabel(s: seq<ControllerItem>): (r: seq<ControllerItem>)
    ensures multiset(r) == multiset(s)
    ensures SortedByLabel(r)
  {
    if |s| == 0 then []
    else
      assert s == s[..|s| - 1] + [s[|s| - 1]];
      Insert(s[|s| - 1], SortByLabel(s[..|s| - 1]))
  }

  /** `sort` is stable: items with the same label keep their scan order. */
  lemma {:induction false} SortByLabelStable(s: seq<ControllerItem>, l: string)
    ensures WithLabel(SortByLabel(s), l) == WithLabel(s, l)
  {
    if |s| > 0 {
      var init, last := s[..|s| - 1], s[|s| - 1];
      SortByLabelStable(init, l);
      InsertStable(last, SortByLabel(init), l);
      assert s == init + [last];
      WithLabelAppend(init, [last], l);
    }
  }

  /** Two controllers with the same label, scanned in one order, are listed
      in that order. */
  lemma SameLabelKeepsScanOrder()
    ensures
      var a := ControllerItem("Users Controller", [], "src/admin/users.controller.ts");
      var b := ControllerItem("Users Controller", [], "src/api/users.controller.ts");
      SortByLabel([a, b]) == [a, b]
  {
    var a := ControllerItem("Users Controller", [], "src/admin/users.controller.ts");
    var b := ControllerItem("Users Controller", [], "src/api/users.controller.ts");
    assert [a, b][..1] == [a];
    assert [a][..0] == [];
    LabelLeqRefl(a.name);
  }

  // ---------------------------------------------------------------------
  // Scanning the workspace
  // ---------------------------------------------------------------------

  /** What one controller file contributes: an item when it is readable and
      yields at least one endpoint, nothing otherwise. */
  function ItemFor(fsPath: string, disk: Disk): (r: seq<ControllerItem>)
    ensures |r| <= 1
    ensures |r| == 1 <==> fsPath in disk && |ReadControllerSpec(disk[fsPath], disk)| > 0
    ensures |r| == 1 ==>
      r[0] == ControllerItem(ControllerName(fsPath), ReadControllerSpec(disk[fsPath], disk), fsPath)
  {
    if fsPath !in disk then []
    else
      var endpoints := ReadControllerSpec(disk[fsPath], disk);
      if |endpoints| > 0 then [ControllerItem(ControllerName(fsPath), endpoints, fsPath)] else []
  }

  /** The items of a scan over `files`, in file order, before sorting. */
  function Scan(files: seq<string>, disk: Disk): (r: seq<ControllerItem>)
    ensures |r| <= |files|
  {
    if |files| == 0 then []
    else Scan(files[..|files| - 1], disk) + ItemFor(files[|files| - 1], disk)
  }

  /** One more file extends the scan by what that file contributes. */
  lemma ScanStep(files: seq<string>, i: nat, disk: Disk)
    requires i < |files|
    ensures Scan(files[..i + 1], disk) == Scan(files[..i], disk) + ItemFor(files[i], disk)
  {
    assert files[..i + 1][..i] == files[..i];
  }

  /** Every scanned item comes from a listed, readable file that yields
      endpoints, carries exactly those endpoints and is named after it. */
  lemma {:induction false} ScanSound(files: seq<string>, disk: Disk)
    ensures forall c :: c in Scan(files, disk) ==>
      && c.filePath in files && c.filePath in disk
      && c.endpoints == ReadControllerSpec(disk[c.filePath], disk)
      && |c.endpoints| > 0
      && c.name == ControllerName(c.filePath)
  {
    if |files| > 0 {
      var prefix := files[..|files| - 1];
      ScanSound(prefix, disk);
      assert forall f :: f in prefix ==> f in files;
    }
  }

  /** Every listed file that is readable and yields endpoints has its item
      in the scan. */
  lemma {:induction false} ScanComplete(files: seq<string>, disk: Disk, i: nat)
    requires i < |files| && files[i] in disk && |ReadControllerSpec(disk[files[i]], disk)| > 0
    ensures ControllerItem(ControllerName(files[i]), ReadControllerSpec(disk[files[i]], disk), files[i]) in Scan(files, disk)
  {
    var prefix := files[..|files| - 1];
    if i < |files| - 1 {
      assert files[i] == prefix[i];
      ScanComplete(prefix, disk, i);
    }
  }

  // ---------------------------------------------------------------------
  // The provider
  // ---------------------------------------------------------------------

  class ApiTreeProvider {
    var controllersCache: seq<ControllerItem>
    var isLoading: bool

    constructor ()
      ensures controllersCache == [] && !isLoading
    {
      controllersCache := [];
      isLoading := false;
    }

    /** `refresh`: forget the cache, so the next root request scans again. */
    method Refresh()
      modifies this
      ensures controllersCache == [] && !isLoading
    {
      controllersCache := [];
      isLoading := false;
    }

    /** `getChildren()` at the root. `workspaceOpen` says whether a folder is
        open and `controllerFiles` is what the file search returned; a file
        that cannot be read from `disk` is skipped. */
    method GetRootChildren(workspaceOpen: bool, controllerFiles: seq<string>, disk: Disk)
      returns (items: seq<ControllerItem>)
      modifies this
      ensures |old(controllersCache)| > 0 ==>
        items == old(controllersCache) && controllersCache == old(controllersCache) && isLoading == old(isLoading)
      ensures |old(controllersCache)| == 0 && old(isLoading) ==>
        items == [] && controllersCache == [] && isLoading
      ensures |old(controllersCache)| == 0 && !old(isLoading) && (!workspaceOpen || |controllerFiles| == 0) ==>
        items == [] && controllersCache == [] && !isLoading
      ensures |old(controllersCache)| == 0 && !old(isLoading) && workspaceOpen && |controllerFiles| > 0 ==>
        && !isLoading
        && items == controllersCache
        && controllersCache == SortByLabel(Scan(controllerFiles, disk))
    {
      if |controllersCache| > 0 {
        return controllersCache;
      }
      if isLoading {
        return [];
      }
      isLoading := true;
      if !workspaceOpen {
        isLoading := false;
        return [];
      }
      if |controllerFiles| == 0 {
        isLoading := false;
        return [];
      }
      for i := 0 to |controllerFiles|
        invariant isLoading
        invariant controllersCache == Scan(controllerFiles[..i], disk)
      {
        ScanStep(controllerFiles, i, disk);
        var file := controllerFiles[i];
        if file in disk {
          var endpoints := ReadController.ReadController(disk[file], disk);
          if |endpoints| > 0 {
            controllersCache := controllersCache + [ControllerItem(ControllerName(file), endpoints, file)];
          }
        }
      }
      assert controllerFiles[..|controllerFiles|] == controllerFiles;
      controllersCache := SortByLabel(controllersCache);
      isLoading := false;
      items := controllersCache;
    }
  }
}
