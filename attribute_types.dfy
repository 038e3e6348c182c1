/**
 * The nine attribute types an entity's attributes can take, with the enum's constant names
 * (what `name()` and `valueOf` use) and the Java and SQLite column types generated for them.
 */
module AttributeTypes {
  import opened Wrappers
  import Names

  datatype AttributeType = Blob | Boolean | Date | Double | Float | Integer | Long | String | Undefined

  /** The enum constant's name, as `name()` returns it. */
  function TypeName(t: AttributeType): (s: string)
    ensures Names.IsIdentifier(s) && '_' !in s
  {
    match t
    case Blob => "BLOB"
    case Boolean => "BOOLEAN"
    case Date => "DATE"
    case Double => "DOUBLE"
    case Float => "FLOAT"
    case Integer => "INTEGER"
    case Long => "LONG"
    case String => "STRING"
    case Undefined => "UNDEFINED"
  }

  /** `AttributeType.valueOf(s)`: the constant with that exact name, None where Java throws. */
  function ValueOf(s: string): (r: Option<AttributeType>)
    ensures r.None? ==> forall t :: TypeName(t) != s
    ensures r.Some? ==> TypeName(r.value) == s
  {
    if s == "BLOB" then Some(Blob)
    else if s == "BOOLEAN" then Some(Boolean)
    else if s == "DATE" then Some(Date)
    else if s == "DOUBLE" then Some(Double)
    else if s == "FLOAT" then Some(Float)
    else if s == "INTEGER" then Some(Integer)
    else if s == "LONG" then Some(Long)
    else if s == "STRING" then Some(String)
    else if s == "UNDEFINED" then Some(Undefined)
    else None
  }

  /** `valueOf` inverts `name()`. */
  lemma ValueOfTypeName(t: AttributeType)
    ensures ValueOf(TypeName(t)) == Some(t)
  {
  }

  /** The message of the IllegalArgumentException that `valueOf` throws for an unknown name. */
  function NoEnumConstant(s: string): string
  {
    "No enum constant com.grahammueller.supermodel.entity.AttributeType." + s
  }

  /** Only the two integral types may hold a primary key; a change away from them clears it. */
  predicate KeyCapable(t: AttributeType)
  {
    t == Integer || t == Long
  }

  /** The Java type generated for an attribute of type `t`. */
  function ToJavaString(t: AttributeType): (s: string)
    ensures s == "" <==> t == Undefined
    ensures s == "String" <==> t == Blob || t == String
    ensures s == "boolean" <==> t == Boolean
    ensures s == "Date" <==> t == Date
    ensures s == "double" <==> t == Double
    ensures s == "float" <==> t == Float
    ensures s == "int" <==> t == Integer
    ensures s == "long" <==> t == Long
  {
    match t
    case Boolean => "boolean"
    case Blob => "String"
    case Date => "Date"
    case Double => "double"
    case Float => "float"
    case Integer => "int"
    case Long => "long"
    case String => "String"
    case Undefined => ""
  }

  /** The SQLite column type (storage affinity) generated for an attribute of type `t`. */
  function ToSQLiteString(t: AttributeType): (s: string)
    ensures s == "NUMERIC" <==> t in {Boolean, Double, Float, Integer, Long}
    ensures s == "TEXT" <==> t == Date || t == String
    ensures s == "BLOB" <==> t == Blob
    ensures s == "" <==> t == Undefined
  {
    match t
    case Blob => "BLOB"
    case Date => "TEXT"
    case String => "TEXT"
    case Undefined => ""
    case _ => "NUMERIC"
  }

  /**
   * The two generated column types agree: a Java primitive (lower-case name) is stored as
   * NUMERIC, a Java String as TEXT or BLOB, and only UNDEFINED has neither.
   */
  lemma JavaAndSQLiteAgree(t: AttributeType)
    ensures ToJavaString(t) in {"boolean", "double", "float", "int", "long"} <==> ToSQLiteString(t) == "NUMERIC"
    ensures ToJavaString(t) == "String" ==> ToSQLiteString(t) in {"TEXT", "BLOB"}
    ensures ToJavaString(t) == "" <==> ToSQLiteString(t) == ""
  {
  }
}
