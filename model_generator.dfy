/**
 * ModelGenerator: one model class per schema definition, one private field per
 * property, the field's Java type resolved from the property's JSON "type" and
 * "format" by an exhaustive dispatch that rejects every other combination.
 */
module ModelGenerator {
  import opened Wrappers

  /** The JSON pattern every date-time field is serialized with. */
  const DatePattern: string := "dd-MM-yyyy hh:mm:ss"

  /** The @JsonFormat annotation put on date-time fields. */
  datatype JsonFormat = JsonFormat(shape: string, pattern: string)

  /** The Java type a property resolves to. */
  datatype FieldType =
    | IntegerType                  // java.lang.Integer
    | LongType                     // java.lang.Long
    | StringType                   // java.lang.String
    | DateType(format: JsonFormat) // java.util.Date with its @JsonFormat
    | BooleanType                  // java.lang.Boolean
    | MapType                      // Map<String, Object>

  /** A property's definition: the keys the resolvers read ("type", "format", "description"). */
  datatype FieldSchema = FieldSchema(jsonType: Option<string>, format: Option<string>, description: Option<string>)

  /** A definition under "definitions": its "type" and its "properties", in key order. */
  datatype ModelSchema = ModelSchema(jsonType: Option<string>, properties: Option<seq<(string, FieldSchema)>>)

  /** A generated private field: its name, its type and its javadoc. */
  datatype FieldSpec = FieldSpec(name: string, fieldType: FieldType, javadoc: Option<string>)

  /** A generated public @Data class: its name and its fields in order. */
  datatype ModelSpec = ModelSpec(name: string, fields: seq<FieldSpec>)

  /**
   * Why generation stops: a missing key (JSONObject.getString / getJSONObject
   * throw JSONException) or one of the generator's own exceptions, each carrying
   * the offending string.
   */
  datatype ModelError =
    | MissingKey(key: string)
    | UnknownModelType(modelType: string)
    | UnknownFieldType(fieldType: string)
    | UnknownIntegerFieldFormat(integerFormat: string)
    | UnknownStringFieldFormat(stringFormat: string)

  // ---------------------------------------------------------------------------
  // The field type resolvers
  // ---------------------------------------------------------------------------

  /** generateIntegerField: int32 is Integer, int64 is Long; the format is required. */
  function ResolveInteger(format: Option<string>): Result<FieldType, ModelError>
  {
    match format
    case None => Err(MissingKey("format"))
    case Some(f) =>
      if f == "int32" then Ok(IntegerType)
      else if f == "int64" then Ok(LongType)
      else Err(UnknownIntegerFieldFormat(f))
  }

  /** generateStringField: no format is String, date-time is Date with the fixed pattern. */
  function ResolveString(format: Option<string>): Result<FieldType, ModelError>
  {
    match format
    case None => Ok(StringType)
    case Some(f) =>
      if f == "date-time" then Ok(DateType(JsonFormat("JsonFormat.Shape.STRING", DatePattern)))
      else Err(UnknownStringFieldFormat(f))
  }

  /** The type dispatch of generateField; boolean and object ignore the format. */
  function ResolveType(schema: FieldSchema): (r: Result<FieldType, ModelError>)
    ensures r.Ok? ==> schema.jsonType == Some(TypeKeyword(r.value)) && Produced(r.value)
  {
    match schema.jsonType
    case None => Err(MissingKey("type"))
    case Some(t) =>
      if t == "integer" then ResolveInteger(schema.format)
      else if t == "string" then ResolveString(schema.format)
      else if t == "boolean" then Ok(BooleanType)
      else if t == "object" then Ok(MapType)
      else Err(UnknownFieldType(t))
  }

  /** generateField: the resolved type, with the description, when present, as javadoc. */
  function GenerateField(name: string, schema: FieldSchema): (r: Result<FieldSpec, ModelError>)
    ensures r.Ok? <==> ResolveType(schema).Ok?
    ensures r.Ok? ==>
      r.value.name == name && r.value.javadoc == schema.description && schema.jsonType == Some(TypeKeyword(r.value.fieldType))
  {
    match ResolveType(schema)
    case Err(e) => Err(e)
    case Ok(t) => Ok(FieldSpec(name, t, schema.description))
  }

  /** generateField applied to one (key, definition) entry of "properties". */
  function GenerateProperty(property: (string, FieldSchema)): Result<FieldSpec, ModelError>
  {
    GenerateField(property.0, property.1)
  }

  // ---------------------------------------------------------------------------
  // The resolver table
  // ---------------------------------------------------------------------------

  /** The JSON "type" keyword each field type is declared with. */
  function TypeKeyword(t: FieldType): string
  {
    match t
    case IntegerType => "integer"
    case LongType => "integer"
    case StringType => "string"
    case DateType(_) => "string"
    case BooleanType => "boolean"
    case MapType => "object"
  }

  /** The "format" a field type demands; Boolean and Map accept any. */
  function RequiredFormat(t: FieldType): Option<Option<string>>
  {
    match t
    case IntegerType => Some(Some("int32"))
    case LongType => Some(Some("int64"))
    case StringType => Some(None)
    case DateType(_) => Some(Some("date-time"))
    case BooleanType => None
    case MapType => None
  }

  /** The only Date the resolver produces carries the fixed shape and pattern. */
  predicate Produced(t: FieldType)
  {
    t.DateType? ==> t.format == JsonFormat("JsonFormat.Shape.STRING", DatePattern)
  }

  /**
   * The dispatch is exactly the table: a property resolves to `t` if and only if
   * its type is `t`'s keyword and, where `t` demands one, its format is `t`'s.
   */
  lemma ResolveTypeTable(schema: FieldSchema, t: FieldType)
    ensures ResolveType(schema) == Ok(t) <==>
      (Produced(t) && schema.jsonType == Some(TypeKeyword(t))
       && (RequiredFormat(t).Some? ==> schema.format == RequiredFormat(t).value))
  {
    match t
    case IntegerType =>
    case LongType =>
    case StringType =>
    case DateType(_) =>
    case BooleanType =>
    case MapType =>
  }

  /** Whatever fails to resolve fails with the offending type or format string. */
  lemma ResolveTypeErrors(schema: FieldSchema)
    ensures ResolveType(schema).Err? ==>
      match ResolveType(schema).error
      case MissingKey(k) =>
        (k == "type" && schema.jsonType.None?)
        || (k == "format" && schema.jsonType == Some("integer") && schema.format.None?)
      case UnknownFieldType(t) =>
        schema.jsonType == Some(t) && t !in {"integer", "string", "boolean", "object"}
      case UnknownIntegerFieldFormat(f) =>
        schema.jsonType == Some("integer") && schema.format == Some(f) && f !in {"int32", "int64"}
      case UnknownStringFieldFormat(f) =>
        schema.jsonType == Some("string") && schema.format == Some(f) && f != "date-time"
      case UnknownModelType(_) => false
  {
  }

  /** The description never changes whether or how a field resolves; it only becomes the javadoc. */
  lemma DescriptionOnlyDocuments(name: string, schema: FieldSchema, description: Option<string>)
    ensures var f, g := GenerateField(name, schema), GenerateField(name, schema.(description := description));
      && (f.Ok? <==> g.Ok?)
      && (f.Ok? ==> g.value == f.value.(javadoc := description))
      && (f.Err? ==> g.error == f.error)
  {
  }

  // ---------------------------------------------------------------------------
  // generateFields, generateModel, generateModels
  // ---------------------------------------------------------------------------

  /**
   * A stream map followed by collect(toList()): each entry's result in order;
   * the first entry whose generation throws aborts the whole list.
   */
  function MapAll<X, Y>(xs: seq<X>, f: X -> Result<Y, ModelError>): Result<seq<Y>, ModelError>
  {
    if |xs| == 0 then Ok([])
    else
      match f(xs[0])
      case Err(e) => Err(e)
      case Ok(y) =>
        match MapAll(xs[1..], f)
        case Err(e) => Err(e)
        case Ok(ys) => Ok([y] + ys)
  }

  /**
   * Mapping succeeds exactly when every entry succeeds, and then yields one
   * result per entry in order; a failure is the failure of the first entry that fails.
   */
  lemma {:induction false} MapAllCharacterized<X, Y>(xs: seq<X>, f: X -> Result<Y, ModelError>)
    ensures MapAll(xs, f).Ok? <==> forall i :: 0 <= i < |xs| ==> f(xs[i]).Ok?
    ensures MapAll(xs, f).Ok? ==>
      |MapAll(xs, f).value| == |xs| && forall i :: 0 <= i < |xs| ==> MapAll(xs, f).value[i] == f(xs[i]).value
    ensures MapAll(xs, f).Err? ==>
      exists i :: 0 <= i < |xs| && f(xs[i]) == Err(MapAll(xs, f).error)
        && forall j :: 0 <= j < i ==> f(xs[j]).Ok?
  {
    MapAllSucceeds(xs, f);
    MapAllFailsFirst(xs, f);
  }

  lemma {:induction false} MapAllSucceeds<X, Y>(xs: seq<X>, f: X -> Result<Y, ModelError>)
    ensures MapAll(xs, f).Ok? <==> forall i :: 0 <= i < |xs| ==> f(xs[i]).Ok?
    ensures MapAll(xs, f).Ok? ==>
      |MapAll(xs, f).value| == |xs| && forall i :: 0 <= i < |xs| ==> MapAll(xs, f).value[i] == f(xs[i]).value
  {
    if |xs| > 0 {
      var rest := xs[1..];
      MapAllSucceeds(rest, f);
      assert forall i :: 1 <= i < |xs| ==> xs[i] == rest[i - 1];
    }
  }

  lemma {:induction false} MapAllFailsFirst<X, Y>(xs: seq<X>, f: X -> Result<Y, ModelError>)
    ensures MapAll(xs, f).Err? ==>
      exists i :: 0 <= i < |xs| && f(xs[i]) == Err(MapAll(xs, f).error)
        && forall j :: 0 <= j < i ==> f(xs[j]).Ok?
  {
    if |xs| > 0 && MapAll(xs, f).Err? {
      var rest := xs[1..];
      if f(xs[0]).Ok? {
        MapAllFailsFirst(rest, f);
        var i :| 0 <= i < |rest| && f(rest[i]) == Err(MapAll(rest, f).error)
          && forall j :: 0 <= j < i ==> f(rest[j]).Ok?;
        assert xs[i + 1] == rest[i];
        assert forall j :: 1 <= j < i + 1 ==> xs[j] == rest[j - 1];
      } else {
        assert f(xs[0]) == Err(MapAll(xs, f).error);
      }
    }
  }

  /** generateFields: one field per property, in key order. */
  function GenerateFields(properties: seq<(string, FieldSchema)>): (r: Result<seq<FieldSpec>, ModelError>)
    ensures r.Ok? ==> |r.value| == |properties| && forall i :: 0 <= i < |properties| ==> r.value[i].name == properties[i].0
  {
    MapAllCharacterized(properties, GenerateProperty);
    MapAll(properties, GenerateProperty)
  }

  /**
   * generateModel: a definition of type "object" becomes the class `name` with
   * the fields of its properties; any other type is rejected. A definition
   * without "type" makes getString throw, so the source's null check never applies.
   */
  function GenerateModel(name: string, definition: ModelSchema): (r: Result<ModelSpec, ModelError>)
    ensures r.Ok? ==>
      && definition.jsonType == Some("object") && definition.properties.Some?
      && r.value.name == name && |r.value.fields| == |definition.properties.value|
  {
    match definition.jsonType
    case None => Err(MissingKey("type"))
    case Some(t) =>
      if t != "object" then Err(UnknownModelType(t))
      else
        match definition.properties
        case None => Err(MissingKey("properties"))
        case Some(properties) =>
          match GenerateFields(properties)
          case Err(e) => Err(e)
          case Ok(fields) => Ok(ModelSpec(name, fields))
  }

  /** generateModel applied to one (key, definition) entry of "definitions". */
  function GenerateDefinition(definition: (string, ModelSchema)): Result<ModelSpec, ModelError>
  {
    GenerateModel(definition.0, definition.1)
  }

  /** generateModels: one model per definition, in key order. */
  function GenerateModels(definitions: seq<(string, ModelSchema)>): (r: Result<seq<ModelSpec>, ModelError>)
    ensures r.Ok? ==> |r.value| == |definitions| && forall i :: 0 <= i < |definitions| ==> r.value[i].name == definitions[i].0
  {
    MapAllCharacterized(definitions, GenerateDefinition);
    MapAll(definitions, GenerateDefinition)
  }

  /**
   * A model of type "object" is the class `name` with exactly one field per
   * property, named by the property's key, in key order; a model fails on a
   * missing or other type, missing properties, or its first failing property.
   */
  lemma GenerateModelCharacterized(name: string, definition: ModelSchema)
    ensures GenerateModel(name, definition).Ok? <==>
      (definition.jsonType == Some("object") && definition.properties.Some?
       && forall i :: 0 <= i < |definition.properties.value| ==> GenerateProperty(definition.properties.value[i]).Ok?)
    ensures GenerateModel(name, definition).Ok? ==>
      var m, ps := GenerateModel(name, definition).value, definition.properties.value;
      && m.name == name && |m.fields| == |ps|
      && forall i :: 0 <= i < |ps| ==>
           m.fields[i].name == ps[i].0 && Ok(m.fields[i].fieldType) == ResolveType(ps[i].1)
           && m.fields[i].javadoc == ps[i].1.description
    ensures definition.jsonType.None? ==> GenerateModel(name, definition) == Err(MissingKey("type"))
    ensures definition.jsonType.Some? && definition.jsonType.value != "object" ==>
      GenerateModel(name, definition) == Err(UnknownModelType(definition.jsonType.value))
  {
    if definition.jsonType == Some("object") && definition.properties.Some? {
      var ps := definition.properties.value;
      MapAllCharacterized(ps, GenerateProperty);
      if GenerateModel(name, definition).Ok? {
        var m := GenerateModel(name, definition).value;
        forall i | 0 <= i < |ps|
          ensures m.fields[i].name == ps[i].0 && Ok(m.fields[i].fieldType) == ResolveType(ps[i].1)
            && m.fields[i].javadoc == ps[i].1.description
        {
          assert m.fields[i] == GenerateProperty(ps[i]).value;
        }
      }
    }
  }

  /**
   * generateModels yields exactly one model per definition, named by its key,
   * in key order, or fails when any definition fails.
   */
  lemma GenerateModelsOnePerDefinition(definitions: seq<(string, ModelSchema)>)
    ensures GenerateModels(definitions).Ok? <==>
      forall i :: 0 <= i < |definitions| ==> GenerateDefinition(definitions[i]).Ok?
    ensures GenerateModels(definitions).Ok? ==>
      var ms := GenerateModels(definitions).value;
      && |ms| == |definitions|
      && forall i :: 0 <= i < |definitions| ==>
           ms[i] == GenerateDefinition(definitions[i]).value && ms[i].name == definitions[i].0
    ensures GenerateModels(definitions).Err? ==>
      exists i :: 0 <= i < |definitions| && GenerateDefinition(definitions[i]) == Err(GenerateModels(definitions).error)
  {
    MapAllCharacterized(definitions, GenerateDefinition);
  }
}
