/** read-dto.ts: the fields of a DTO class and the DTOs they refer to. */
module ReadDto {
  import opened Wrappers
  import opened Strings
  import opened Ast

  datatype DtoField = DtoField(
    name: string,
    typeText: string,
    isArray: bool,
    isClass: bool,
    relatedDtoPath: Option<string>,
    relatedDtoName: Option<string>)

  /** `isPrimitiveType`: the loose heuristic on flags and type text. */
  predicate IsPrimitiveType(t: TypeInfo) {
    t.isString || t.isNumber || t.isBoolean || t.isEnum || Contains(t.text, "Date") || t.text == "any"
  }

  /** The element type of an array type, else the type itself. */
  function BaseType(t: TypeInfo): TypeInfo {
    if t.IsArray() then t.elementType.value else t
  }

  /** `type.getSymbol() || type.getAliasSymbol()`. */
  function TypeSymbol(t: TypeInfo): Option<Symbol> {
    if t.symbol.Some? then t.symbol else t.aliasSymbol
  }

  /** Whether the base type leads to a DTO declared outside `node_modules`. */
  predicate HasRelatedDto(base: TypeInfo) {
    && !IsPrimitiveType(base)
    && TypeSymbol(base).Some?
    && |TypeSymbol(base).value.declarationPaths| > 0
    && !Contains(TypeSymbol(base).value.declarationPaths[0], "node_modules")
  }

  /** `analyzeProperty`. */
  function AnalyzeProperty(p: PropertyDecl): (f: DtoField)
    ensures f.name == p.name && f.typeText == p.propertyType.text
    ensures f.isArray == p.propertyType.IsArray()
    ensures f.relatedDtoPath.Some? <==> HasRelatedDto(BaseType(p.propertyType))
    ensures f.relatedDtoPath.Some? <==> f.relatedDtoName.Some?
    ensures f.relatedDtoPath.Some? ==>
      var sym := TypeSymbol(BaseType(p.propertyType)).value;
      f.relatedDtoPath.value == sym.declarationPaths[0] && f.relatedDtoName.value == sym.name
    ensures f.isClass <==> Truthy(f.relatedDtoPath)
    ensures IsPrimitiveType(BaseType(p.propertyType)) ==> !f.isClass && f.relatedDtoPath.None?
  {
    var typeObj := p.propertyType;
    var baseType := if typeObj.IsArray() then typeObj.elementType.value else typeObj;
    var related :=
      if !IsPrimitiveType(baseType) then
        match (if baseType.symbol.Some? then baseType.symbol else baseType.aliasSymbol)
        case None => None
        case Some(sym) =>
          if |sym.declarationPaths| > 0 && !Contains(sym.declarationPaths[0], "node_modules")
          then Some((sym.declarationPaths[0], sym.name))
          else None
      else None;
    var relatedDtoPath := if related.Some? then Some(related.value.0) else None;
    var relatedDtoName := if related.Some? then Some(related.value.1) else None;
    DtoField(p.name, typeObj.text, typeObj.IsArray(), Truthy(relatedDtoPath), relatedDtoPath, relatedDtoName)
  }

    /** The type-text test is loose: a DTO class whose name holds "Date" counts
      as primitive, so a property of that type is not followed even though
      the class is declared in the project. */
  lemma DateNamedDtoNotFollowed()
    ensures
      var sym := Symbol("BirthDateDto", ["/app/src/dto/birth-date.dto.ts"]);
      var t := TypeInfo("BirthDateDto", false, false, false, false, None, Some(sym), None);
      var f := AnalyzeProperty(PropertyDecl("birth", t));
      IsPrimitiveType(t) && !HasRelatedDto(t) && f.relatedDtoPath.None? && !f.isClass
  {
    var text := "BirthDateDto";
    assert text[5..9] == "Date";
    ContainsAt(text, "Date", 5);
  }

/** The fields `readDto` returns once the file is loaded: none when the class
      is missing, else one per declared property, in declaration order. */
  function DtoFields(file: SourceFile, className: string): (r: seq<DtoField>)
    ensures GetClass(file, className).None? ==> r == []
    ensures GetClass(file, className).Some? ==>
      var props := GetClass(file, className).value.properties;
      |r| == |props| && forall i :: 0 <= i < |props| ==> r[i] == AnalyzeProperty(props[i])
  {
    match GetClass(file, className)
    case None => []
    case Some(classDecl) => Map(classDecl.properties, AnalyzeProperty)
  }

  /** `readDto` over a fixed disk: None when the file cannot be loaded
      (`addSourceFileAtPath` throws). */
  function ReadDtoSpec(disk: Disk, filePath: string, className: string): (r: Option<seq<DtoField>>)
    ensures r.None? <==> filePath !in disk
  {
    if filePath in disk then Some(DtoFields(disk[filePath], className)) else None
  }

  /** `readDto(project, filePath, className)`: the file already in the
      project is reused, and added only when it is missing. */
  method ReadDto(project: Project, filePath: string, className: string) returns (r: Option<seq<DtoField>>)
    requires project.Valid()
    modifies project
    ensures project.Valid()
    ensures r == ReadDtoSpec(project.disk, filePath, className)
    ensures filePath in old(project.loaded) ==> project.loaded == old(project.loaded)
    ensures filePath !in old(project.loaded) ==>
      project.loaded == if filePath in project.disk then old(project.loaded)[filePath := project.disk[filePath]]
                        else old(project.loaded)
  {
    var sourceFile := project.GetOrAddSourceFile(filePath);
    if sourceFile.None? {
      return None;
    }
    var classDecl := GetClass(sourceFile.value, className);
    if classDecl.None? {
      return Some([]);
    }
    r := Some(Map(classDecl.value.properties, AnalyzeProperty));
  }
}
