/** read-entity.ts: the table a TypeORM entity class is bound to. */
module ReadEntity {
  import opened Wrappers
  import opened Strings
  import opened Ast

  /** `getTableNameFromEntity(filePath, className)`. The file is loaded into a
      fresh project, so only the disk matters; a load failure is caught and
      gives None, as do a missing class and a class without `@Entity`. */
  function GetTableNameFromEntity(disk: Disk, filePath: string, className: string): (r: Option<string>)
    ensures r.Some? <==>
      filePath in disk && GetClass(disk[filePath], className).Some?
      && HasDecorator(GetClass(disk[filePath], className).value.decorators, "Entity")
    ensures r.Some? ==>
      var entity := GetDecorator(GetClass(disk[filePath], className).value.decorators, "Entity").value;
      r.value == if |entity.arguments| > 0 then StripQuotes(entity.arguments[0]) else className
  {
    if filePath !in disk then None
    else
      match GetClass(disk[filePath], className)
      case None => None
      case Some(classDecl) =>
        match GetDecorator(classDecl.decorators, "Entity")
        case None => None
        case Some(entity) =>
          if |entity.arguments| > 0 then Some(StripQuotes(entity.arguments[0]))
          else Some(className)
  }
}
