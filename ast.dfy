/** The declarations the analysis reads through ts-morph, as plain values:
    a class is an optional name, an exported flag, decorators, methods and
    properties; a type is its flags, its text, an optional array element type
    and optional symbols with the paths of their declarations. Line numbers
    are 1-based, as ts-morph's `getStartLineNumber` returns them. */
module Ast {
  import opened Wrappers

  /** A symbol with the file paths of its declarations, in ts-morph's order. */
  datatype Symbol = Symbol(name: string, declarationPaths: seq<string>)

  datatype TypeInfo = TypeInfo(
    text: string,
    isString: bool,
    isNumber: bool,
    isBoolean: bool,
    isEnum: bool,
    elementType: Option<TypeInfo>,  // present exactly when the type is an array
    symbol: Option<Symbol>,
    aliasSymbol: Option<Symbol>)
  {
    predicate IsArray() { elementType.Some? }
  }

  /** A decorator: its name, the source text of each argument, its start line. */
  datatype Decorator = Decorator(name: string, arguments: seq<string>, line: nat)

  datatype Parameter = Parameter(name: string, decorators: seq<Decorator>, paramType: TypeInfo)

  datatype MethodDecl = MethodDecl(
    decorators: seq<Decorator>,
    parameters: seq<Parameter>,
    returnType: TypeInfo,
    startLine: nat,
    endLine: nat)

  datatype PropertyDecl = PropertyDecl(name: string, propertyType: TypeInfo)

  datatype ClassDecl = ClassDecl(
    name: Option<string>,
    exported: bool,
    decorators: seq<Decorator>,
    methods: seq<MethodDecl>,
    properties: seq<PropertyDecl>)

  /** The classes of one source file, in declaration order. */
  type SourceFile = seq<ClassDecl>

  /** The files on disk, by path; a path outside the map cannot be loaded. */
  type Disk = map<string, SourceFile>

  /** `node.getDecorator(name)`: the first decorator with that name. */
  function GetDecorator(ds: seq<Decorator>, name: string): (r: Option<Decorator>)
    ensures r.Some? ==> r.value in ds && r.value.name == name
    ensures r.None? <==> forall i :: 0 <= i < |ds| ==> ds[i].name != name
  {
    match FirstWhere(ds, (d: Decorator) => d.name == name)
    case None => None
    case Some(i) => Some(ds[i])
  }

  predicate HasDecorator(ds: seq<Decorator>, name: string) {
    exists i :: 0 <= i < |ds| && ds[i].name == name
  }

  predicate Named(c: ClassDecl, name: string) {
    c.name == Some(name)
  }

  /** `sourceFile.getClass(name)`: the first class declared with that name. */
  function GetClass(file: SourceFile, name: string): (r: Option<ClassDecl>)
    ensures r.Some? ==> r.value in file && Named(r.value, name)
    ensures r.None? <==> forall i :: 0 <= i < |file| ==> !Named(file[i], name)
  {
    match FirstWhere(file, (c: ClassDecl) => Named(c, name))
    case None => None
    case Some(i) => Some(file[i])
  }

  /** A ts-morph `Project`: the source files it has loaded so far. Files come
      from a disk snapshot that does not change while the project lives, so
      every loaded file equals its copy on disk. */
  class Project {
    const disk: Disk
    var loaded: map<string, SourceFile>

    ghost predicate Valid()
      reads this
    {
      forall p :: p in loaded ==> p in disk && loaded[p] == disk[p]
    }

    constructor (disk: Disk)
      ensures Valid() && this.disk == disk && loaded == map[]
    {
      this.disk := disk;
      loaded := map[];
    }

    /** `project.getSourceFile(path) || project.addSourceFileAtPath(path)`:
        a loaded file is reused, a missing one is added from disk, and a path
        not on disk makes `addSourceFileAtPath` throw (None). */
    method GetOrAddSourceFile(path: string) returns (r: Option<SourceFile>)
      requires Valid()
      modifies this
      ensures Valid()
      ensures r == if path in disk then Some(disk[path]) else None
      ensures path in old(loaded) ==> loaded == old(loaded)
      ensures path !in old(loaded) ==>
        loaded == if path in disk then old(loaded)[path := disk[path]] else old(loaded)
    {
      if path in loaded {
        r := Some(loaded[path]);
      } else if path in disk {
        loaded := loaded[path := disk[path]];
        r := Some(disk[path]);
      } else {
        r := None;
      }
    }
  }
}
