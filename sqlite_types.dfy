/**
 * The four SQLite column types as the standalone enum declares them (also the attribute type
 * of the older map-based entity), with their printed, Java and SQL column forms.
 */
module SqliteTypes {
  import opened Wrappers
  import JavaStrings

  datatype SqliteType = IntegerPrimaryKey | Numeric | Text | Blob

  /** The enum constant's name, as `name()` (and the default `toString`) returns it. */
  function TypeName(t: SqliteType): string
  {
    match t
    case IntegerPrimaryKey => "INTEGER_PRIMARY_KEY"
    case Numeric => "NUMERIC"
    case Text => "TEXT"
    case Blob => "BLOB"
  }

  /** `valueOf(s)`: the constant with that exact name, None where Java throws. */
  function ValueOf(s: string): (r: Option<SqliteType>)
    ensures r.None? ==> forall t :: TypeName(t) != s
    ensures r.Some? ==> TypeName(r.value) == s
  {
    if s == "INTEGER_PRIMARY_KEY" then Some(IntegerPrimaryKey)
    else if s == "NUMERIC" then Some(Numeric)
    else if s == "TEXT" then Some(Text)
    else if s == "BLOB" then Some(Blob)
    else None
  }

  /** `valueOf` inverts `name()`. */
  lemma ValueOfTypeName(t: SqliteType)
    ensures ValueOf(TypeName(t)) == Some(t)
  {
  }

  /** No constant's name holds a delimiter of the map-based entity text format. */
  lemma TypeNamePlain(t: SqliteType)
    ensures TypeName(t) != [] && ':' !in TypeName(t) && '#' !in TypeName(t) && '$' !in TypeName(t)
  {
    match t
    case IntegerPrimaryKey =>
    case Numeric =>
    case Text =>
    case Blob =>
  }

  /** The overriding `toString`: the constant's name with every underscore turned into a space. */
  function ToString(t: SqliteType): (s: string)
    ensures |s| == |TypeName(t)| && '_' !in s
  {
    JavaStrings.ReplaceChar(TypeName(t), '_', ' ')
  }

  /** Only INTEGER_PRIMARY_KEY prints differently from its name. */
  lemma ToStringValues(t: SqliteType)
    ensures t == IntegerPrimaryKey ==> ToString(t) == "INTEGER PRIMARY KEY"
    ensures t != IntegerPrimaryKey ==> ToString(t) == TypeName(t)
  {
    if t == IntegerPrimaryKey {
      KeyToString();
    } else {
      JavaStrings.ReplaceCharAbsent(TypeName(t), '_', ' ');
    }
  }

  /** INTEGER_PRIMARY_KEY prints as its three words separated by spaces. */
  lemma KeyToString()
    ensures ToString(IntegerPrimaryKey) == "INTEGER PRIMARY KEY"
  {
    var a, b, c := "INTEGER", "PRIMARY", "KEY";
    assert TypeName(IntegerPrimaryKey) == a + "_" + b + "_" + c;
    SpacedWords(a, b, c);
    KeyWords();
  }

  /** The printed key type is its three words joined by spaces. */
  lemma KeyWords()
    ensures "INTEGER" + " " + "PRIMARY" + " " + "KEY" == "INTEGER PRIMARY KEY"
  {
  }

  /** Three underscore-free words joined by underscores print joined by spaces. */
  lemma SpacedWords(a: string, b: string, c: string)
    requires '_' !in a && '_' !in b && '_' !in c
    ensures JavaStrings.ReplaceChar(a + "_" + b + "_" + c, '_', ' ') == a + " " + b + " " + c
  {
    var u := "_";
    JavaStrings.ReplaceCharAbsent(a, '_', ' ');
    JavaStrings.ReplaceCharAbsent(b, '_', ' ');
    JavaStrings.ReplaceCharAbsent(c, '_', ' ');
    assert JavaStrings.ReplaceChar(u, '_', ' ') == " ";
    JavaStrings.ReplaceCharConcat(a + u + b + u, c, '_', ' ');
    JavaStrings.ReplaceCharConcat(a + u + b, u, '_', ' ');
    JavaStrings.ReplaceCharConcat(a + u, b, '_', ' ');
    JavaStrings.ReplaceCharConcat(a, u, '_', ' ');
  }

  /** The Java field type generated for a column of type `t`. */
  function ToJavaString(t: SqliteType): (s: string)
    ensures s == "long" <==> t == IntegerPrimaryKey
    ensures s == "double" <==> t == Numeric
    ensures s == "String" <==> t == Text || t == Blob
  {
    match t
    case IntegerPrimaryKey => "long"
    case Numeric => "double"
    case Text => "String"
    case Blob => "String"
  }

  /** The SQL column definition for a column of type `t`. */
  function ToSQLString(t: SqliteType): (s: string)
    ensures s == "INTEGER PRIMARY KEY AUTOINCREMENT" <==> t == IntegerPrimaryKey
  {
    match t
    case IntegerPrimaryKey => "INTEGER PRIMARY KEY AUTOINCREMENT"
    case _ => ToString(t)
  }

  /**
   * The generated Java and SQL forms agree: text-like columns become Java Strings, the key
   * column is a `long` and the only auto-incremented one, and every other SQL form is the
   * constant's printed name.
   */
  lemma JavaAndSQLAgree(t: SqliteType)
    ensures ToJavaString(t) == "String" <==> ToSQLString(t) in {"TEXT", "BLOB"}
    ensures ToJavaString(t) == "long" <==> ToSQLString(t) == "INTEGER PRIMARY KEY AUTOINCREMENT"
    ensures ToJavaString(t) == "double" <==> ToSQLString(t) == "NUMERIC"
    ensures t != IntegerPrimaryKey ==> ToSQLString(t) == TypeName(t)
  {
    match t
    case IntegerPrimaryKey =>
    case Numeric => JavaStrings.ReplaceCharAbsent(TypeName(t), '_', ' ');
    case Text => JavaStrings.ReplaceCharAbsent(TypeName(t), '_', ' ');
    case Blob => JavaStrings.ReplaceCharAbsent(TypeName(t), '_', ' ');
  }
}
