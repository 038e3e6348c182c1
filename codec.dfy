/**
 * The entity text format `NAME$a:TYPE[_PRIMARY_KEY]#...$r:Target#...`: encoding of an entity
 * value, and decoding as the static factory does it, one chunk at a time, stopping at the
 * first failure. Decoding constructs (and so registers) the entity before it looks at the
 * attributes, so a failure after that point still leaves a registered, partly filled entity.
 */
module Codec {
  import opened Wrappers
  import opened JavaStrings
  import opened AttributeTypes
  import opened EntitySpec
  import Names

  /** The marker appended to the type of the primary-key attribute. */
  const KeySuffix: string := "_PRIMARY_KEY"

  function AttributeChunk(a: AttrValue): string
  {
    a.name + ":" + TypeName(a.attrType) + (if a.isPrimaryKey then KeySuffix else "")
  }

  function AttributeChunks(attrs: seq<AttrValue>): (r: seq<string>)
    ensures |r| == |attrs| && forall i | 0 <= i < |attrs| :: r[i] == AttributeChunk(attrs[i])
  {
    seq(|attrs|, i requires 0 <= i < |attrs| => AttributeChunk(attrs[i]))
  }

  function RelationshipChunk(r: RelValue): string
  {
    r.name + ":" + r.target
  }

  function RelationshipChunks(rels: seq<RelValue>): (r: seq<string>)
    ensures |r| == |rels| && forall i | 0 <= i < |rels| :: r[i] == RelationshipChunk(rels[i])
  {
    seq(|rels|, i requires 0 <= i < |rels| => RelationshipChunk(rels[i]))
  }

  /** `toString`: the name, `$`, each attribute chunk and `#`, `$`, each relationship chunk and `#`. */
  function Encode(v: EntityValue): (s: string)
    ensures |v.name| < |s| && s[..|v.name|] == v.name && s[|v.name|] == '$'
  {
    v.name + "$" + Terminated(AttributeChunks(v.attributes), '#') + "$"
      + Terminated(RelationshipChunks(v.relationships), '#')
  }

  /** `replaceFirst("\\$$", "\\$ ")`: a space after a final `$`. */
  function PadTrailing(s: string): (r: string)
    ensures r == [] || r[|r| - 1] != '$'
    ensures r == s || r == s + " "
    ensures r == s + " " <==> s != [] && s[|s| - 1] == '$'
  {
    if s != [] && s[|s| - 1] == '$' then s + " " else s
  }

  /**
   * The padding done before splitting at `$`: every `$$` becomes `$ $` and a final `$` gets
   * a space after it, so that `split` keeps the empty sections.
   */
  function PadDelimiters(text: string): (r: string)
    ensures r == [] || r[|r| - 1] != '$'
  {
    PadTrailing(Replace(text, "$$", "$ $"))
  }

  /** Where decoding stopped: the entity as built so far, and the failure that stopped it. */
  datatype Progress = Progress(entity: EntityValue, failure: Option<string>)

  /** A decode either fails before the entity exists, or builds and registers it. */
  datatype Decoded = Rejected(error: string) | Built(entity: EntityValue, failure: Option<string>)

  /**
   * An attribute chunk already split into its name and type parts: the key marker is detected
   * and removed; the type is looked up before the attribute is added, and the key flag is set
   * on the first attribute of that name after.
   */
  function DecodeAttributeParts(v: EntityValue, name: string, typePart: string): (p: Progress)
    ensures p.entity.name == v.name && p.entity.relationships == v.relationships
    ensures p.failure.None? ==> Names.IsIdentifier(name) && |p.entity.attributes| == |v.attributes| + 1
    ensures p.failure.None? && Contains(typePart, KeySuffix) ==> HasKey(p.entity)
  {
    var isKey := Contains(typePart, KeySuffix);
    var typeName := if isKey then Replace(typePart, KeySuffix, "") else typePart;
    match ValueOf(typeName)
    case None => Progress(v, Some(NoEnumConstant(typeName)))
    case Some(ty) => AddKeyed(v, name, ty, isKey)
  }

  /** The attribute is added, then the key flag is set on the first attribute of that name. */
  function AddKeyed(v: EntityValue, name: string, ty: AttributeType, isKey: bool): (p: Progress)
    ensures p.entity.name == v.name && p.entity.relationships == v.relationships
    ensures p.failure.None? ==> Names.IsIdentifier(name) && |p.entity.attributes| == |v.attributes| + 1
    ensures !Names.IsIdentifier(name) ==> p.entity == v && p.failure.Some?
    ensures isKey && p.failure.None? ==> HasKey(p.entity)
  {
    match AddAttribute(v, name, ty)
    case Failure(e) => Progress(v, Some(e))
    case Success(v1) =>
      match SetPrimaryKey(v1, name, isKey)
      case Failure(e) => Progress(v1, Some(e))
      case Success(v2) =>
        var k := IndexOf(AttrNames(v1.attributes), name).value;
        assert v2.attributes == v1.attributes[k := v1.attributes[k].(isPrimaryKey := isKey)];
        assert isKey ==> KeyFlags(v2.attributes)[k];
        Progress(v2, None)
  }

  /** One attribute chunk: blank chunks are skipped; the chunk must split at `:` into two pieces. */
  function DecodeAttribute(v: EntityValue, chunk: string): (p: Progress)
    ensures p.entity.name == v.name && p.entity.relationships == v.relationships
    ensures Trim(chunk) == [] ==> p == Progress(v, None)
    ensures p.failure.None? && Trim(chunk) != [] ==> |p.entity.attributes| == |v.attributes| + 1
  {
    var t := Trim(chunk);
    if t == [] then Progress(v, None)
    else
      var parts := Split(t, ':');
      if |parts| != 2 then Progress(v, Some("Attribute malformed"))
      else DecodeAttributeParts(v, parts[0], parts[1])
  }

  /** The attribute chunks in order, stopping at the first failure. */
  function DecodeAttributes(v: EntityValue, chunks: seq<string>): (p: Progress)
    ensures p.entity.name == v.name && p.entity.relationships == v.relationships
    ensures |v.attributes| <= |p.entity.attributes| <= |v.attributes| + |chunks|
    decreases |chunks|
  {
    if chunks == [] then Progress(v, None)
    else
      var p := DecodeAttribute(v, chunks[0]);
      if p.failure.Some? then p else DecodeAttributes(p.entity, chunks[1..])
  }

  /** The message for a relationship whose target is not registered. */
  function MissingTarget(name: string): string
  {
    "Other Entity, \"" + name + ",\" doesn't exist"
  }

  /**
   * One relationship chunk: blank chunks are skipped; the chunk must split at `:` into two
   * pieces; the target is looked up by name in `registry`, then the relationship is added.
   */
  function DecodeRelationship(v: EntityValue, chunk: string, registry: seq<string>): (p: Progress)
    ensures p.entity.name == v.name && p.entity.attributes == v.attributes
  {
    var t := Trim(chunk);
    if t == [] then Progress(v, None)
    else
      var parts := Split(t, ':');
      if |parts| != 2 then Progress(v, Some("Relationship malformed"))
      else if parts[1] !in registry then Progress(v, Some(MissingTarget(parts[1])))
      else
        match AddRelationship(v, parts[0], Some(parts[1]), registry)
        case Failure(e) => Progress(v, Some(e))
        case Success(v1) => Progress(v1, None)
  }

  /** The relationship chunks in order, stopping at the first failure. */
  function DecodeRelationships(v: EntityValue, chunks: seq<string>, registry: seq<string>): (p: Progress)
    ensures p.entity.name == v.name && p.entity.attributes == v.attributes
    decreases |chunks|
  {
    if chunks == [] then Progress(v, None)
    else
      var p := DecodeRelationship(v, chunks[0], registry);
      if p.failure.Some? then p else DecodeRelationships(p.entity, chunks[1..], registry)
  }

  /**
   * Once the entity exists: exactly three pieces are demanded, then the attribute section is
   * decoded and, when every chunk of it was, the relationship section against `registry`.
   */
  function DecodePieces(v0: EntityValue, pieces: seq<string>, registry: seq<string>): (p: Progress)
    ensures p.entity.name == v0.name
  {
    if |pieces| != 3 then Progress(v0, Some("Entity malformed"))
    else
      var p := DecodeAttributes(v0, Split(pieces[1], '#'));
      if p.failure.Some? then p
      else DecodeRelationships(p.entity, Split(pieces[2], '#'), registry)
  }

  /**
   * `fromString` against a registry holding `registered`: pad, split at `$`, construct the
   * entity from the first piece (which registers it), demand exactly three pieces, then
   * decode the attributes and, against the registry that now includes the new entity, the
   * relationships.
   */
  function Decode(text: string, registered: seq<string>): (r: Decoded)
    ensures r.Built? ==> Names.IsIdentifier(r.entity.name) && r.entity.name !in registered
  {
    var padded := PadDelimiters(text);
    SplitNotEmpty(padded, '$');
    var pieces := Split(padded, '$');
    match CreateEntity(pieces[0], registered)
    case Failure(e) => Rejected(e)
    case Success(v0) =>
      var q := DecodePieces(v0, pieces, registered + [pieces[0]]);
      Built(q.entity, q.failure)
  }
}
