/** generate-payload.ts: an example request body built from DTO fields. */
module GeneratePayload {
  import opened Wrappers
  import opened Strings
  import opened Ast
  import opened JsonValue
  import opened ReadDto

  /** A one-element array around `v` when the field is an array. */
  function Wrap(v: Json, isArray: bool): Json {
    if isArray then JArray([v]) else v
  }

  /** Wrapping in an array adds no object level. */
  lemma WrapNested(v: Json, isArray: bool, n: nat)
    requires NestedWithin(v, n)
    ensures NestedWithin(Wrap(v, isArray), n)
  {
    if isArray {
      assert [v][0] == v;
    }
  }

  /** `getPrimitiveValue(type, isArray)`; `now` stands for the ISO timestamp
      of the current instant. */
  function PrimitiveValue(typeText: string, isArray: bool, now: string): (v: Json)
    ensures isArray ==> v.JArray? && |v.items| == 1 && !v.items[0].JArray? && !v.items[0].JObject?
    ensures !isArray ==> !v.JArray? && !v.JObject?
  {
    var typeLower := ToLower(typeText);
    var val :=
      if Contains(typeLower, "string") then JString("string")
      else if Contains(typeLower, "number") || Contains(typeLower, "int") then JNumber(0)
      else if Contains(typeLower, "boolean") then JBool(true)
      else if Contains(typeLower, "date") then JString(now)
      else JNull;
    Wrap(val, isArray)
  }

  /** A stand-in holds no object. */
  lemma PrimitiveNested(typeText: string, isArray: bool, now: string, n: nat)
    ensures NestedWithin(PrimitiveValue(typeText, isArray, now), n)
  {
    var v := PrimitiveValue(typeText, isArray, now);
    if isArray {
      var item := v.items[0];
      assert NestedWithin(item, n);
      assert v == JArray([item]);
    }
  }

  /** The stand-in table, in the order it is consulted. */
  function PrimitiveTable(now: string): seq<(string, Json)> {
    [("string", JString("string")), ("number", JNumber(0)), ("int", JNumber(0)),
     ("boolean", JBool(true)), ("date", JString(now))]
  }

  /** The value of the first table entry whose key occurs in `text`, else null. */
  function FirstMatch(table: seq<(string, Json)>, text: string): Json {
    if |table| == 0 then JNull
    else if Contains(text, table[0].0) then table[0].1
    else FirstMatch(table[1..], text)
  }

  /** The if/else chain of `getPrimitiveValue` is the table read top to bottom
      on the lower-cased type text. */
  lemma PrimitiveValueIsTableLookup(typeText: string, isArray: bool, now: string)
    ensures PrimitiveValue(typeText, isArray, now) == Wrap(FirstMatch(PrimitiveTable(now), ToLower(typeText)), isArray)
  {
    var t0 := PrimitiveTable(now);
    var lower := ToLower(typeText);
    var t1 := [("number", JNumber(0)), ("int", JNumber(0)), ("boolean", JBool(true)), ("date", JString(now))];
    var t2 := [("int", JNumber(0)), ("boolean", JBool(true)), ("date", JString(now))];
    var t3 := [("boolean", JBool(true)), ("date", JString(now))];
    var t4 := [("date", JString(now))];
    assert t0[1..] == t1 && t1[1..] == t2 && t2[1..] == t3 && t3[1..] == t4;
    assert FirstMatch(t4, lower) == if Contains(lower, "date") then JString(now) else FirstMatch(t4[1..], lower);
    assert FirstMatch(t3, lower) == if Contains(lower, "boolean") then JBool(true) else FirstMatch(t4, lower);
    assert FirstMatch(t2, lower) == if Contains(lower, "int") then JNumber(0) else FirstMatch(t3, lower);
    assert FirstMatch(t1, lower) == if Contains(lower, "number") then JNumber(0) else FirstMatch(t2, lower);
    assert FirstMatch(t0, lower) == if Contains(lower, "string") then JString("string") else FirstMatch(t1, lower);
  }

  /** A field whose related DTO is followed: isClass, path and name all set. */
  predicate IsNestedDto(f: DtoField) {
    f.isClass && Truthy(f.relatedDtoPath) && Truthy(f.relatedDtoName)
  }

  /** What is left of the depth budget: recursion stops once depth exceeds 3. */
  function Budget(depth: nat): nat {
    if depth > 3 then 0 else 4 - depth
  }

  /** `generateSkeletonPayload(project, fields, depth)` over a fixed disk. */
  function Skeleton(disk: Disk, fields: seq<DtoField>, depth: nat, now: string): (r: Json)
    ensures r.JObject?
    ensures depth > 3 ==> r == EmptyObject
    ensures depth <= 3 ==>
      forall k :: k in r.members <==> exists i :: 0 <= i < |fields| && fields[i].name == k
    decreases Budget(depth), 1, 0
  {
    if depth > 3 then EmptyObject else JObject(Fill(disk, fields, depth, now))
  }

  /** The payload dictionary after the fields have been assigned in order. */
  function Fill(disk: Disk, fields: seq<DtoField>, depth: nat, now: string): (m: map<string, Json>)
    requires depth <= 3
    ensures forall k :: k in m <==> exists i :: 0 <= i < |fields| && fields[i].name == k
    decreases Budget(depth), 0, |fields|
  {
    if |fields| == 0 then map[]
    else
      var prefix := fields[..|fields| - 1];
      var field := fields[|fields| - 1];
      var m := Fill(disk, prefix, depth, now)[field.name := FieldValue(disk, field, depth, now)];
      assert forall i :: 0 <= i < |prefix| ==> prefix[i] == fields[i];
      m
  }

  /** The value one field gets: the related DTO's payload one level deeper,
      `{}` when reading the related DTO fails, else a primitive stand-in;
      wrapped in a one-element array for array fields. */
  function FieldValue(disk: Disk, field: DtoField, depth: nat, now: string): Json
    requires depth <= 3
    decreases Budget(depth), 0, 0
  {
    if IsNestedDto(field) then
      match ReadDtoSpec(disk, field.relatedDtoPath.value, field.relatedDtoName.value)
      case None => Wrap(EmptyObject, field.isArray)
      case Some(subFields) => Wrap(Skeleton(disk, subFields, depth + 1, now), field.isArray)
    else PrimitiveValue(field.typeText, field.isArray, now)
  }

  /** An array field gives a one-element array; the value (or the element)
      is an object exactly for a field typed by another DTO. */
  lemma FieldValueShape(disk: Disk, field: DtoField, depth: nat, now: string)
    requires depth <= 3
    ensures var v := FieldValue(disk, field, depth, now);
      && (field.isArray <==> v.JArray?)
      && (field.isArray ==> |v.items| == 1)
      && (IsNestedDto(field) <==> (if field.isArray then v.items[0] else v).JObject?)
  {
  }

  /** A later field with the same name overwrites an earlier one: each key
      holds the value of the last field with that name. */
  lemma {:induction false} LastFieldWins(disk: Disk, fields: seq<DtoField>, depth: nat, now: string, i: nat)
    requires depth <= 3 && i < |fields|
    requires forall j :: i < j < |fields| ==> fields[j].name != fields[i].name
    ensures Fill(disk, fields, depth, now)[fields[i].name] == FieldValue(disk, fields[i], depth, now)
  {
    if i < |fields| - 1 {
      var prefix := fields[..|fields| - 1];
      assert prefix[i] == fields[i];
      LastFieldWins(disk, prefix, depth, now, i);
    }
  }

  /** The per-field results are independent: a field whose related DTO cannot
      be read becomes `{}` (or `[{}]`) and nothing else changes. */
  lemma UnreadableFieldIsEmpty(disk: Disk, field: DtoField, depth: nat, now: string)
    requires depth <= 3 && IsNestedDto(field) && field.relatedDtoPath.value !in disk
    ensures FieldValue(disk, field, depth, now) == if field.isArray then JArray([EmptyObject]) else EmptyObject
  {
  }

  /** Objects nest at most five deep from depth 0, whatever the DTO graph,
      cycles included: each hop spends one unit of the depth budget. */
  lemma {:induction false} SkeletonNested(disk: Disk, fields: seq<DtoField>, depth: nat, now: string, n: nat)
    requires depth <= 4 && n == 5 - depth
    ensures NestedWithin(Skeleton(disk, fields, depth, now), n)
    decreases Budget(depth), 2, 0
  {
    if depth <= 3 {
      FillNested(disk, fields, depth, now, n - 1);
    }
  }

  lemma {:induction false} FillNested(disk: Disk, fields: seq<DtoField>, depth: nat, now: string, n: nat)
    requires depth <= 3 && n == 4 - depth
    ensures forall k :: k in Fill(disk, fields, depth, now) ==> NestedWithin(Fill(disk, fields, depth, now)[k], n)
    decreases Budget(depth), 1, |fields|
  {
    if |fields| > 0 {
      FillNested(disk, fields[..|fields| - 1], depth, now, n);
      FieldValueNested(disk, fields[|fields| - 1], depth, now, n);
    }
  }

  lemma {:induction false} FieldValueNested(disk: Disk, field: DtoField, depth: nat, now: string, n: nat)
    requires depth <= 3 && n == 4 - depth
    ensures NestedWithin(FieldValue(disk, field, depth, now), n)
    decreases Budget(depth), 0, 1
  {
    if IsNestedDto(field) {
      RelatedDtoNested(disk, field, depth, now, n);
    } else {
      assert FieldValue(disk, field, depth, now) == PrimitiveValue(field.typeText, field.isArray, now);
      PrimitiveNested(field.typeText, field.isArray, now, n);
    }
  }

  /** A followed DTO field holds `{}` or the related DTO's skeleton one
      level deeper, possibly inside an array. */
  lemma {:induction false} RelatedDtoNested(disk: Disk, field: DtoField, depth: nat, now: string, n: nat)
    requires depth <= 3 && n == 4 - depth && IsNestedDto(field)
    ensures NestedWithin(FieldValue(disk, field, depth, now), n)
    decreases Budget(depth), 0, 0
  {
    var sub := ReadDtoSpec(disk, field.relatedDtoPath.value, field.relatedDtoName.value);
    if sub.None? {
      assert FieldValue(disk, field, depth, now) == Wrap(EmptyObject, field.isArray);
      WrapNested(EmptyObject, field.isArray, n);
    } else {
      var sk := Skeleton(disk, sub.value, depth + 1, now);
      SkeletonNested(disk, sub.value, depth + 1, now, n);
      assert FieldValue(disk, field, depth, now) == Wrap(sk, field.isArray);
      WrapNested(sk, field.isArray, n);
    }
  }

  /** `{name: string, tags: string[]}` gives `{name: "string", tags: ["string"]}`. */
  lemma NameTagsExample(disk: Disk, now: string)
    ensures
      var name := DtoField("name", "string", false, false, None, None);
      var tags := DtoField("tags", "string[]", true, false, None, None);
      Skeleton(disk, [name, tags], 0, now)
        == JObject(map["name" := JString("string"), "tags" := JArray([JString("string")])])
  {
    var name := DtoField("name", "string", false, false, None, None);
    var tags := DtoField("tags", "string[]", true, false, None, None);
    StringTypeIsString("string");
    StringTypeIsString("string[]");
    assert FieldValue(disk, name, 0, now) == JString("string");
    assert FieldValue(disk, tags, 0, now) == JArray([JString("string")]);
    assert [name, tags][..1] == [name];
    assert [name][..0] == [];
    assert Fill(disk, [name], 0, now) == map["name" := JString("string")];
  }

  lemma StringTypeIsString(t: string)
    requires |t| >= 6 && t[..6] == "string"
    ensures Contains(ToLower(t), "string")
  {
    var lower := ToLower(t);
    assert lower[..6] == "string";
    ContainsAt(lower, "string", 0);
  }

  /** `generateSkeletonPayload`: fills the payload dictionary field by field,
      reading and recursing into related DTOs through the shared project. */
  method GenerateSkeletonPayload(project: Project, fields: seq<DtoField>, depth: nat, now: string)
    returns (payload: Json)
    requires project.Valid()
    modifies project
    ensures project.Valid()
    ensures payload == Skeleton(project.disk, fields, depth, now)
    decreases Budget(depth)
  {
    if depth > 3 {
      return EmptyObject;
    }
    var obj: map<string, Json> := map[];
    for i := 0 to |fields|
      invariant project.Valid()
      invariant obj == Fill(project.disk, fields[..i], depth, now)
    {
      assert fields[..i + 1][..i] == fields[..i];
      var field := fields[i];
      if field.isClass && Truthy(field.relatedDtoPath) && Truthy(field.relatedDtoName) {
        var subFields := ReadDto.ReadDto(project, field.relatedDtoPath.value, field.relatedDtoName.value);
        if subFields.None? {
          obj := obj[field.name := if field.isArray then JArray([EmptyObject]) else EmptyObject];
        } else {
          var subPayload := GenerateSkeletonPayload(project, subFields.value, depth + 1, now);
          obj := obj[field.name := if field.isArray then JArray([subPayload]) else subPayload];
        }
      } else {
        obj := obj[field.name := PrimitiveValue(field.typeText, field.isArray, now)];
      }
    }
    assert fields[..|fields|] == fields;
    payload := JObject(obj);
  }
}
