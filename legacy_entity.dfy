/**
 * The older map-based entity: a validated name and a map from attribute names to the
 * four-constant type, with its own text form `NAME$a:TYPE#b:TYPE#...`. The map is a hash
 * map, so the order in which `toString` visits its keys is not fixed; here it is returned
 * alongside the text, and the decoding and the round trip hold for every such order.
 */
module Legacy {
  import opened Wrappers
  import opened JavaStrings
  import opened SqliteTypes
  import Names

  /**
   * The constructor's checks on the name, in order: empty, any non-word character, a leading
   * digit. Only the middle message differs from the registry's messages for the role "Entity".
   */
  function CheckName(name: string): (o: Outcome<string>)
    ensures o.Pass? <==> Names.IsIdentifier(name)
  {
    if name == [] then Fail("Entity name not specified")
    else if !Names.AllWordChars(name) then Fail("Invalid characters in name")
    else if Names.IsDigit(name[0]) then Fail("Entity name can't start with a number")
    else Pass
  }

  /** The older checks accept exactly what the registry accepts for the role "Entity", with the same empty-name message. */
  lemma CheckNameAgrees(name: string)
    ensures CheckName(name).Pass? <==> Names.ValidateName(name, "Entity").Pass?
    ensures name == [] ==> CheckName(name) == Names.ValidateName(name, "Entity") == Fail("Entity name not specified")
  {
    if name == [] {
      assert "Entity" + " name not specified" == "Entity name not specified";
    }
  }

  /** A leading digit, checked only after the characters, is refused with the registry's message. */
  lemma CheckNameDigit(name: string)
    requires name != [] && Names.AllWordChars(name) && Names.IsDigit(name[0])
    ensures CheckName(name) == Names.ValidateName(name, "Entity") == Fail("Entity name can't start with a number")
  {
    assert "Entity" + " name can't start with a number" == "Entity name can't start with a number";
  }

  /** A non-word character is the one rule whose message leaves out the role. */
  lemma CheckNameCharacters(name: string)
    requires name != [] && !Names.AllWordChars(name)
    ensures CheckName(name) == Fail("Invalid characters in name")
    ensures Names.ValidateName(name, "Entity") == Fail("Invalid characters in Entity name")
  {
    assert "Invalid characters in " + "Entity" + " name" == "Invalid characters in Entity name";
  }

  /** The entity as a value: its name and its attribute map. */
  datatype MapEntity = MapEntity(name: string, attributes: map<string, SqliteType>)

  /** The message of the exception `substring(0, -1)` throws for a chunk without `:`. */
  const IndexOutOfRange: string := "String index out of range: -1"

  /** The message of the exception `Type.valueOf` throws for an unknown constant name. */
  function NoEnumConstant(s: string): string
  {
    "No enum constant com.grahammueller.supermodel.Entity.Type." + s
  }

  /** `order` lists every key of `m` once and nothing else: a possible iteration order of the map. */
  predicate Enumerates(order: seq<string>, m: map<string, SqliteType>)
  {
    && (forall i | 0 <= i < |order| :: order[i] in m)
    && (forall k | k in m :: k in order)
    && (forall i, j | 0 <= i < j < |order| :: order[i] != order[j])
  }

  /** One attribute as `toString` writes it, without the terminating `#`. */
  function Chunk(m: map<string, SqliteType>, k: string): string
    requires k in m
  {
    k + ":" + TypeName(m[k])
  }

  /** The chunks of the keys in `order`. */
  function Chunks(order: seq<string>, m: map<string, SqliteType>): (r: seq<string>)
    requires forall i | 0 <= i < |order| :: order[i] in m
    ensures |r| == |order| && forall i | 0 <= i < |order| :: r[i] == Chunk(m, order[i])
  {
    seq(|order|, i requires 0 <= i < |order| => Chunk(m, order[i]))
  }

  /** `toString` visiting the keys in `order`: the name, `$`, then each `key:TYPE#`. */
  function Encode(e: MapEntity, order: seq<string>): (s: string)
    requires forall i | 0 <= i < |order| :: order[i] in e.attributes
    ensures |e.name| < |s| && s[..|e.name|] == e.name && s[|e.name|] == '$'
    ensures order == [] ==> s == e.name + "$"
  {
    e.name + "$" + Terminated(Chunks(order, e.attributes), '#')
  }

  /**
   * One `#` chunk: cut at its first `:` into name and type (Java throws when there is none),
   * look the type up, then `put`, which replaces the type of a name already present.
   */
  function DecodeAttribute(m: map<string, SqliteType>, chunk: string): (r: Result<map<string, SqliteType>, string>)
    ensures r.Success? ==> IndexOf(chunk, ':').Some? && r.value.Keys == m.Keys + {chunk[..IndexOf(chunk, ':').value]}
  {
    match IndexOf(chunk, ':')
    case None => Failure(IndexOutOfRange)
    case Some(i) =>
      match ValueOf(chunk[i + 1..])
      case None => Failure(NoEnumConstant(chunk[i + 1..]))
      case Some(t) => Success(m[chunk[..i] := t])
  }

  /** The chunks in order, stopping at the first that throws. */
  function DecodeAttributes(m: map<string, SqliteType>, chunks: seq<string>): (r: Result<map<string, SqliteType>, string>)
    ensures r.Success? ==> m.Keys <= r.value.Keys
    ensures r.Success? ==> forall i | 0 <= i < |chunks| :: ':' in chunks[i]
    decreases |chunks|
  {
    if chunks == [] then Success(m)
    else
      match DecodeAttribute(m, chunks[0])
      case Failure(e) => Failure(e)
      case Success(m1) => DecodeAttributes(m1, chunks[1..])
  }

  /**
   * `fromString`: the name is everything before the first `$` (there must be one) and is
   * checked by the constructor; what follows is split at `#` and decoded chunk by chunk.
   */
  function Decode(text: string): (r: Result<MapEntity, string>)
    ensures '$' !in text ==> r == Failure("Name not properly specified")
    ensures r.Success? ==> CheckName(r.value.name).Pass? && r.value.name + "$" <= text
  {
    match IndexOf(text, '$')
    case None => Failure("Name not properly specified")
    case Some(i) =>
      var name := text[..i];
      match CheckName(name)
      case Fail(e) => Failure(e)
      case Pass =>
        match DecodeAttributes(map[], Split(text[i + 1..], '#'))
        case Failure(e) => Failure(e)
        case Success(m) => Success(MapEntity(name, m))
  }

  /** The chunk of a key free of `:` puts that key with its type. */
  lemma DecodeChunk(acc: map<string, SqliteType>, k: string, t: SqliteType)
    requires ':' !in k
    ensures DecodeAttribute(acc, k + ":" + TypeName(t)) == Success(acc[k := t])
  {
    var c := k + ":" + TypeName(t);
    IndexOfIs(c, ':', |k|);
    assert c[..|k|] == k && c[|k| + 1..] == TypeName(t);
    ValueOfTypeName(t);
  }

  /**
   * Decoding the chunks of the keys in `order` puts exactly those keys, each with its type in
   * `m`, and leaves every other entry of `acc` as it was.
   */
  lemma {:induction false} DecodeChunks(acc: map<string, SqliteType>, order: seq<string>, m: map<string, SqliteType>)
    requires forall i | 0 <= i < |order| :: order[i] in m && ':' !in order[i]
    ensures DecodeAttributes(acc, Chunks(order, m)).Success?
    ensures var r := DecodeAttributes(acc, Chunks(order, m)).value;
            && (forall k :: k in r <==> k in acc || k in order)
            && (forall k | k in r :: r[k] == if k in order then m[k] else acc[k])
    decreases |order|
  {
    var cs := Chunks(order, m);
    if order != [] {
      var k := order[0];
      DecodeChunk(acc, k, m[k]);
      assert cs[0] == Chunk(m, k);
      assert cs[1..] == Chunks(order[1..], m);
      DecodeChunks(acc[k := m[k]], order[1..], m);
      assert forall x :: x in order <==> x == k || x in order[1..];
    }
  }

  /**
   * The round trip for at least one attribute: whatever order `toString` visits the keys in,
   * decoding its text gives back the name and the map, provided no key holds `:` or `#`.
   */
  lemma RoundTrip(e: MapEntity, order: seq<string>)
    requires Names.IsIdentifier(e.name)
    requires e.attributes != map[] && Enumerates(order, e.attributes)
    requires forall k | k in e.attributes :: ':' !in k && '#' !in k
    ensures Decode(Encode(e, order)) == Success(e)
  {
    var m := e.attributes;
    var cs := Chunks(order, m);
    var text := Encode(e, order);
    NameBreak(e.name, Terminated(cs, '#'));
    var k0 :| k0 in m;
    assert order != [];
    ChunksPlain(order, m);
    SplitChunks(cs, '#');
    DecodeChunks(map[], order, m);
    var r := DecodeAttributes(map[], cs).value;
    forall k
      ensures k in r <==> k in m
    {
      if k in order {
        var i :| 0 <= i < |order| && order[i] == k;
      }
    }
    SameEntries(r, m);
  }

  /** Two maps with the same keys and the same value at each key are equal. */
  lemma SameEntries<K, V>(a: map<K, V>, b: map<K, V>)
    requires forall k :: k in a <==> k in b
    requires forall k | k in a :: a[k] == b[k]
    ensures a == b
  {
  }

  /** The name of an identifier before `$` is what `indexOf('$')` cuts off. */
  lemma NameBreak(name: string, body: string)
    requires Names.IsIdentifier(name)
    ensures IndexOf(name + "$" + body, '$') == Some(|name|)
    ensures (name + "$" + body)[..|name|] == name && (name + "$" + body)[|name| + 1..] == body
  {
    Names.IdentifierIsPlain(name);
    IndexOfIs(name + "$" + body, '$', |name|);
  }

  /** Chunks of keys free of `#` are not empty and free of `#`. */
  lemma ChunksPlain(order: seq<string>, m: map<string, SqliteType>)
    requires forall i | 0 <= i < |order| :: order[i] in m && '#' !in order[i]
    ensures forall c | c in Chunks(order, m) :: '#' !in c && c != []
  {
    var cs := Chunks(order, m);
    forall c | c in cs
      ensures '#' !in c && c != []
    {
      var i :| 0 <= i < |cs| && cs[i] == c;
      TypeNamePlain(m[order[i]]);
    }
  }

  /** With no attribute the text ends at `$`, and the one empty chunk has no `:`. */
  lemma EmptyDoesNotRoundTrip(name: string)
    requires Names.IsIdentifier(name)
    ensures Encode(MapEntity(name, map[]), []) == name + "$"
    ensures Decode(name + "$") == Failure(IndexOutOfRange)
  {
    NameBreak(name, []);
    assert name + "$" + [] == name + "$";
  }

  /** A name given twice keeps one entry, with the type of its later chunk. */
  lemma RepeatedNameOverwrites(acc: map<string, SqliteType>, k: string, t1: SqliteType, t2: SqliteType)
    requires ':' !in k
    ensures DecodeAttributes(acc, [k + ":" + TypeName(t1), k + ":" + TypeName(t2)]) == Success(acc[k := t2])
  {
    var c1, c2 := k + ":" + TypeName(t1), k + ":" + TypeName(t2);
    var m1 := acc[k := t1];
    var m2 := m1[k := t2];
    calc {
      DecodeAttributes(acc, [c1, c2]);
      { DecodeChunk(acc, k, t1); assert [c1, c2][1..] == [c2]; }
      DecodeAttributes(m1, [c2]);
      { DecodeChunk(m1, k, t2); assert [c2][1..] == []; }
      DecodeAttributes(m2, []);
      Success(m2);
      { SameEntries(m2, acc[k := t2]); }
      Success(acc[k := t2]);
    }
  }

  /** One more key visited adds its chunk and `#` at the end of the text. */
  lemma EncodeSnoc(e: MapEntity, order: seq<string>, k: string)
    requires forall i | 0 <= i < |order| :: order[i] in e.attributes
    requires k in e.attributes
    ensures Encode(e, order + [k]) == Encode(e, order) + Chunk(e.attributes, k) + "#"
  {
    var cs := Chunks(order, e.attributes);
    var cs' := Chunks(order + [k], e.attributes);
    assert cs' == cs + [Chunk(e.attributes, k)];
    assert cs'[..|cs|] == cs;
  }

  class Entity {
    var name: string
    var attributes: map<string, SqliteType>

    /** The entity as a value. */
    function View(): MapEntity
      reads this
    {
      MapEntity(name, attributes)
    }

    /** Stores a name already checked, with an empty map. */
    constructor (name: string)
      requires Names.IsIdentifier(name)
      ensures View() == MapEntity(name, map[])
    {
      this.name := name;
      attributes := map[];
    }

    /** `new Entity(name)`: the checks run before any field is set; a failing name gives no entity. */
    static method Create(name: string) returns (r: Result<Entity, string>)
      ensures r.ToOutcome() == CheckName(name)
      ensures r.Success? ==> fresh(r.value) && r.value.View() == MapEntity(name, map[])
    {
      var o := CheckName(name);
      if o.Fail? {
        return Failure(o.error);
      }
      var e := new Entity(name);
      return Success(e);
    }

    /** `addAttribute`: no validation; the name maps to the type, replacing any earlier one. */
    method AddAttribute(n: string, t: SqliteType) returns (added: bool)
      modifies this`attributes
      ensures added && attributes == old(attributes)[n := t]
    {
      attributes := attributes[n := t];
      return true;
    }

    /** `toString`: visits every key once, in an order the map chooses, and returns that order too. */
    method ToString() returns (s: string, order: seq<string>)
      ensures Enumerates(order, attributes)
      ensures s == Encode(View(), order)
    {
      ghost var v := View();
      var m := attributes;
      s := name + "$";
      order := [];
      var rest := m.Keys;
      while rest != {}
        invariant rest <= m.Keys
        invariant forall i | 0 <= i < |order| :: order[i] in m && order[i] !in rest
        invariant forall k | k in m :: k in rest || k in order
        invariant forall i, j | 0 <= i < j < |order| :: order[i] != order[j]
        invariant s == Encode(v, order)
        decreases |rest|
      {
        var k :| k in rest;
        EncodeSnoc(v, order, k);
        s := s + Chunk(m, k) + "#";
        order := order + [k];
        rest := rest - {k};
      }
    }

    /**
     * `fromString`: a text without `$` is refused before any entity exists; otherwise the
     * entity is constructed from the name and each chunk added in turn, the first chunk that
     * throws ending the decode.
     */
    static method FromString(text: string) returns (r: Result<Entity, string>)
      ensures Decode(text).Failure? ==> r == Failure(Decode(text).error)
      ensures Decode(text).Success? ==> r.Success? && fresh(r.value) && r.value.View() == Decode(text).value
    {
      var nameBreak := IndexOf(text, '$');
      if nameBreak.None? {
        return Failure("Name not properly specified");
      }
      var c := Create(text[..nameBreak.value]);
      if c.Failure? {
        return Failure(c.error);
      }
      var e := c.value;
      var failure := e.AddChunks(Split(text[nameBreak.value + 1..], '#'));
      if failure.Some? {
        return Failure(failure.value);
      }
      return Success(e);
    }

    /** Each `#` chunk in turn is cut at its first `:` and added, until one of them throws. */
    method AddChunks(chunks: seq<string>) returns (failure: Option<string>)
      modifies this`attributes
      ensures match DecodeAttributes(old(attributes), chunks)
              case Failure(err) => failure == Some(err)
              case Success(m) => failure == None && attributes == m
    {
      var i := 0;
      while i < |chunks|
        invariant 0 <= i <= |chunks|
        invariant DecodeAttributes(old(attributes), chunks) == DecodeAttributes(attributes, chunks[i..])
      {
        assert chunks[i..][0] == chunks[i] && chunks[i..][1..] == chunks[i + 1..];
        var colon := IndexOf(chunks[i], ':');
        if colon.None? {
          return Some(IndexOutOfRange);
        }
        var attrName := chunks[i][..colon.value];
        var attrType := chunks[i][colon.value + 1..];
        var t := ValueOf(attrType);
        if t.None? {
          return Some(NoEnumConstant(attrType));
        }
        var _ := AddAttribute(attrName, t.value);
        i := i + 1;
      }
      return None;
    }
  }
}
