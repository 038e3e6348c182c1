/**
 * Decoding inverts encoding: for an entity whose names are identifiers, which has at most
 * one primary key and no other attribute of the key's name, which has a key whenever it has
 * relationships, and whose targets are registered (or are the entity itself), decoding
 * its text against a registry without its name rebuilds exactly that entity.
 */
module CodecProofs {
  import opened Wrappers
  import opened JavaStrings
  import opened AttributeTypes
  import opened EntitySpec
  import opened Codec
  import Names

  /** The entities `Decode(Encode(v), registered)` rebuilds. */
  predicate Encodable(v: EntityValue, registered: seq<string>)
  {
    && Names.IsIdentifier(v.name) && v.name !in registered
    && (forall a | a in v.attributes :: Names.IsIdentifier(a.name))
    && KeyNameUnique(v.attributes)
    && AtMostOneKey(v.attributes)
    && (v.relationships != [] ==> HasKey(v))
    && (forall r | r in v.relationships ::
          Names.IsIdentifier(r.name) && Names.IsIdentifier(r.target) && r.target in registered + [v.name])
  }

  /**
   * No attribute shares its name with the key. Other names may repeat: `addAttribute` does
   * not refuse a name in use, and decoding a repeated non-key name changes nothing.
   */
  predicate KeyNameUnique(attrs: seq<AttrValue>)
  {
    forall i, j | 0 <= i < |attrs| && 0 <= j < |attrs| && i != j && attrs[i].isPrimaryKey ::
      attrs[j].name != attrs[i].name
  }

  /**
   * `a` can follow the attributes of `v` in a decodable list: no attribute of its name is the
   * key, and if `a` is the key its name is new and no key exists yet.
   */
  predicate Fits(v: EntityValue, a: AttrValue)
  {
    && (forall i | 0 <= i < |v.attributes| && v.attributes[i].name == a.name :: !v.attributes[i].isPrimaryKey)
    && (a.isPrimaryKey ==> a.name !in AttrNames(v.attributes) && !HasKey(v))
  }

  /** A blank section, as the padding makes an empty one. */
  function Blank(s: string): string
  {
    if s == [] then " " else s
  }

  // ---------------------------------------------------------------------------------------
  // Chunks.
  // ---------------------------------------------------------------------------------------

  /** A chunk `x:y` of word characters: visible, free of `$` and `#`, and split back at `:`. */
  lemma ChunkFacts(x: string, y: string)
    requires Names.AllWordChars(x) && Names.AllWordChars(y) && x != [] && y != []
    ensures var c := x + ":" + y;
      && c != [] && '$' !in c && '#' !in c
      && Trim(c) == c
      && Split(c, ':') == [x, y]
  {
    var c := x + ":" + y;
    Names.IdentifierIsPlain(x);
    Names.IdentifierIsPlain(y);
    forall i | 0 <= i < |c|
      ensures !IsTrimmed(c[i]) && c[i] != '$' && c[i] != '#'
    {
      if i < |x| {
        assert c[i] == x[i];
      } else if i == |x| {
        assert c[i] == ':';
      } else {
        assert c[i] == y[i - |x| - 1];
        assert y[i - |x| - 1] in y;
      }
    }
    TrimVisible(c);
    assert Terminated([x], ':') + y == c by {
      assert [x][..0] == [];
    }
    SplitFields([x], y, ':');
  }

  lemma KeySuffixWordChars()
    ensures Names.AllWordChars(KeySuffix) && KeySuffix[0] == '_'
  {
  }

  /** The type part of an attribute chunk, with the marker when the attribute is the key. */
  function TypePart(a: AttrValue): string
  {
    TypeName(a.attrType) + (if a.isPrimaryKey then KeySuffix else "")
  }

  /** The type part is a word, holds the marker exactly for the key, and yields the type back. */
  lemma TypePartFacts(a: AttrValue)
    ensures Names.AllWordChars(TypePart(a)) && TypePart(a) != []
    ensures Contains(TypePart(a), KeySuffix) == a.isPrimaryKey
    ensures a.isPrimaryKey ==> Replace(TypePart(a), KeySuffix, "") == TypeName(a.attrType)
    ensures !a.isPrimaryKey ==> TypePart(a) == TypeName(a.attrType)
  {
    var n := TypeName(a.attrType);
    KeySuffixWordChars();
    if a.isPrimaryKey {
      Names.WordCharsConcat(n, KeySuffix);
      ContainsSuffix(n, KeySuffix);
      ReplaceSkips(n, KeySuffix, KeySuffix, "");
      assert Replace(KeySuffix, KeySuffix, "") == "" + Replace([], KeySuffix, "");
      assert n + "" == n;
    } else {
      assert TypePart(a) == n;
      ContainsNeedsHead(n, KeySuffix);
    }
  }

  /** The chunk of an attribute with an identifier name. */
  lemma AttributeChunkFacts(a: AttrValue)
    requires Names.IsIdentifier(a.name)
    ensures var c := AttributeChunk(a);
      && c != [] && '$' !in c && '#' !in c
      && Trim(c) == c
      && Split(c, ':') == [a.name, TypePart(a)]
  {
    TypePartFacts(a);
    assert AttributeChunk(a) == a.name + ":" + TypePart(a);
    ChunkFacts(a.name, TypePart(a));
  }

  /** The chunk of a relationship with identifier name and target. */
  lemma RelationshipChunkFacts(r: RelValue)
    requires Names.IsIdentifier(r.name) && Names.IsIdentifier(r.target)
    ensures var c := RelationshipChunk(r);
      && c != [] && '$' !in c && '#' !in c
      && Trim(c) == c
      && Split(c, ':') == [r.name, r.target]
  {
    assert RelationshipChunk(r) == r.name + ":" + r.target;
    ChunkFacts(r.name, r.target);
  }

  /**
   * Adding an attribute and setting its flag succeeds exactly for an identifier, unless the
   * flag asks for a second primary key: the new attribute is not flagged, and its name is
   * then present, so the lookup cannot miss.
   */
  lemma AddKeyedSucceeds(v: EntityValue, name: string, ty: AttributeType, isKey: bool)
    ensures AddKeyed(v, name, ty, isKey).failure.None? <==> Names.IsIdentifier(name) && !(isKey && HasKey(v))
  {
    if Names.IsIdentifier(name) {
      var v1 := v.(attributes := v.attributes + [AttrValue(name, ty, false)]);
      assert KeyFlags(v1.attributes) == KeyFlags(v.attributes) + [false];
      assert AttrNames(v1.attributes)[|v.attributes|] == name;
    }
  }

  /**
   * Adding an attribute that fits and then setting its flag on the first attribute of its
   * name appends it as it is.
   */
  lemma AppendAttribute(v: EntityValue, a: AttrValue)
    requires Names.IsIdentifier(a.name) && Fits(v, a)
    ensures AddKeyed(v, a.name, a.attrType, a.isPrimaryKey) == Progress(v.(attributes := v.attributes + [a]), None)
  {
    var v1 := v.(attributes := v.attributes + [AttrValue(a.name, a.attrType, false)]);
    assert AddAttribute(v, a.name, a.attrType) == Success(v1);
    var n := |v.attributes|;
    assert HasKey(v1) == HasKey(v) by {
      assert KeyFlags(v1.attributes) == KeyFlags(v.attributes) + [false];
    }
    assert AttrNames(v1.attributes) == AttrNames(v.attributes) + [a.name];
    var k := IndexOf(AttrNames(v1.attributes), a.name).value;
    if a.isPrimaryKey {
      IndexOfIs(AttrNames(v1.attributes), a.name, n);
      assert v1.attributes[n := v1.attributes[n].(isPrimaryKey := true)] == v.attributes + [a];
    } else {
      assert !v1.attributes[k].isPrimaryKey by {
        if k < n {
          assert v.attributes[k].name == a.name;
        }
      }
      assert v1.attributes[k := v1.attributes[k].(isPrimaryKey := false)] == v1.attributes;
      assert v1.attributes == v.attributes + [a];
    }
  }

  /** The chunk of an attribute with an identifier name is added, then its flag is set. */
  lemma AttributeChunkDecodes(v: EntityValue, a: AttrValue)
    requires Names.IsIdentifier(a.name)
    ensures DecodeAttribute(v, AttributeChunk(a)) == AddKeyed(v, a.name, a.attrType, a.isPrimaryKey)
  {
    AttributeChunkFacts(a);
    TypePartFacts(a);
    ValueOfTypeName(a.attrType);
  }

  /** Decoding the chunk of an attribute that fits appends exactly that attribute. */
  lemma DecodeAttributeStep(v: EntityValue, a: AttrValue)
    requires Names.IsIdentifier(a.name) && Fits(v, a)
    ensures DecodeAttribute(v, AttributeChunk(a)) == Progress(v.(attributes := v.attributes + [a]), None)
  {
    AttributeChunkDecodes(v, a);
    AppendAttribute(v, a);
  }

  /**
   * A chunk that is already trimmed and splits into the name and the registered target of
   * `r` decodes, under a primary key, to `r`, appended.
   */
  lemma ChunkDecodesToRelationship(v: EntityValue, c: string, r: RelValue, registry: seq<string>)
    requires c != [] && Trim(c) == c && Split(c, ':') == [r.name, r.target]
    requires HasKey(v) && Names.IsIdentifier(r.name) && r.target in registry
    ensures DecodeRelationship(v, c, registry) == Progress(v.(relationships := v.relationships + [r]), None)
  {
    assert RelValue(r.name, r.target) == r;
  }

  /** Decoding one relationship's chunk appends exactly that relationship. */
  lemma DecodeRelationshipStep(v: EntityValue, r: RelValue, registry: seq<string>)
    requires HasKey(v)
    requires Names.IsIdentifier(r.name) && Names.IsIdentifier(r.target) && r.target in registry
    ensures DecodeRelationship(v, RelationshipChunk(r), registry)
              == Progress(v.(relationships := v.relationships + [r]), None)
  {
    RelationshipChunkFacts(r);
    ChunkDecodesToRelationship(v, RelationshipChunk(r), r, registry);
  }

  /** A chunk that decodes without failure is followed by the rest, from the entity it yields. */
  lemma DecodeAttributesCons(v: EntityValue, c: string, rest: seq<string>, v1: EntityValue)
    requires DecodeAttribute(v, c) == Progress(v1, None)
    ensures DecodeAttributes(v, [c] + rest) == DecodeAttributes(v1, rest)
  {
    assert ([c] + rest)[0] == c && ([c] + rest)[1..] == rest;
  }

  /** The next attribute of a well-formed list fits after those before it. */
  lemma NextAttributeFits(v: EntityValue, attrs: seq<AttrValue>, k: nat)
    requires k < |attrs| && v.attributes == attrs[..k]
    requires KeyNameUnique(attrs) && AtMostOneKey(attrs)
    ensures Fits(v, attrs[k])
  {
    var a := attrs[k];
    forall i | 0 <= i < k && v.attributes[i].name == a.name
      ensures !v.attributes[i].isPrimaryKey
    {
      assert attrs[i].name == attrs[k].name;
    }
    if a.isPrimaryKey {
      forall i | 0 <= i < k
        ensures AttrNames(v.attributes)[i] != a.name && !KeyFlags(v.attributes)[i]
      {
        assert attrs[i].name != attrs[k].name;
        assert !attrs[i].isPrimaryKey;
      }
    }
  }

  /** The chunk of the attribute at `k` decodes to that attribute, appended. */
  lemma DecodeNextAttribute(v: EntityValue, attrs: seq<AttrValue>, k: nat)
    requires k < |attrs| && v.attributes == attrs[..k] && Names.IsIdentifier(attrs[k].name)
    requires Fits(v, attrs[k])
    ensures DecodeAttributes(v, AttributeChunks(attrs)[k..])
              == DecodeAttributes(v.(attributes := attrs[..k + 1]), AttributeChunks(attrs)[k + 1..])
  {
    var a := attrs[k];
    var rest := AttributeChunks(attrs)[k + 1..];
    assert AttributeChunks(attrs)[k..] == [AttributeChunk(a)] + rest;
    assert v.attributes + [a] == attrs[..k + 1];
    DecodeAttributeStep(v, a);
    DecodeAttributesCons(v, AttributeChunk(a), rest, v.(attributes := attrs[..k + 1]));
  }

  /** The remaining attribute chunks, decoded after the first `k` attributes are in place. */
  lemma {:induction false} DecodeAttributesFrom(v: EntityValue, attrs: seq<AttrValue>, k: nat)
    requires k <= |attrs| && v.attributes == attrs[..k]
    requires forall a | a in attrs :: Names.IsIdentifier(a.name)
    requires KeyNameUnique(attrs) && AtMostOneKey(attrs)
    ensures DecodeAttributes(v, AttributeChunks(attrs)[k..]) == Progress(v.(attributes := attrs), None)
    decreases |attrs| - k
  {
    if k == |attrs| {
      assert AttributeChunks(attrs)[k..] == [];
      assert attrs[..k] == attrs;
    } else {
      assert attrs[k] in attrs;
      NextAttributeFits(v, attrs, k);
      DecodeNextAttribute(v, attrs, k);
      DecodeAttributesFrom(v.(attributes := attrs[..k + 1]), attrs, k + 1);
    }
  }

  /** A chunk that decodes without failure is followed by the rest, from the entity it yields. */
  lemma DecodeRelationshipsCons(v: EntityValue, c: string, rest: seq<string>, registry: seq<string>, v1: EntityValue)
    requires DecodeRelationship(v, c, registry) == Progress(v1, None)
    ensures DecodeRelationships(v, [c] + rest, registry) == DecodeRelationships(v1, rest, registry)
  {
    assert ([c] + rest)[0] == c && ([c] + rest)[1..] == rest;
  }

  /** The chunk of the relationship at `k` decodes to that relationship, appended. */
  lemma DecodeNextRelationship(v: EntityValue, rels: seq<RelValue>, k: nat, registry: seq<string>)
    requires k < |rels| && v.relationships == rels[..k] && HasKey(v)
    requires Names.IsIdentifier(rels[k].name) && Names.IsIdentifier(rels[k].target) && rels[k].target in registry
    ensures DecodeRelationships(v, RelationshipChunks(rels)[k..], registry)
              == DecodeRelationships(v.(relationships := rels[..k + 1]), RelationshipChunks(rels)[k + 1..], registry)
  {
    var r := rels[k];
    var rest := RelationshipChunks(rels)[k + 1..];
    assert RelationshipChunks(rels)[k..] == [RelationshipChunk(r)] + rest;
    assert v.relationships + [r] == rels[..k + 1];
    DecodeRelationshipStep(v, r, registry);
    DecodeRelationshipsCons(v, RelationshipChunk(r), rest, registry, v.(relationships := rels[..k + 1]));
  }

  /** The remaining relationship chunks, decoded after the first `k` relationships are in place. */
  lemma {:induction false} DecodeRelationshipsFrom(v: EntityValue, rels: seq<RelValue>, k: nat, registry: seq<string>)
    requires k <= |rels| && v.relationships == rels[..k]
    requires rels != [] ==> HasKey(v)
    requires forall r | r in rels :: Names.IsIdentifier(r.name) && Names.IsIdentifier(r.target) && r.target in registry
    ensures DecodeRelationships(v, RelationshipChunks(rels)[k..], registry) == Progress(v.(relationships := rels), None)
    decreases |rels| - k
  {
    if k == |rels| {
      assert RelationshipChunks(rels)[k..] == [];
      assert rels[..k] == rels;
    } else {
      assert rels[k] in rels;
      DecodeNextRelationship(v, rels, k, registry);
      DecodeRelationshipsFrom(v.(relationships := rels[..k + 1]), rels, k + 1, registry);
    }
  }

  // ---------------------------------------------------------------------------------------
  // Sections.
  // ---------------------------------------------------------------------------------------

  /** A section of terminated chunks has no `$`, and an empty one is padded to a blank. */
  lemma SectionFree(cs: seq<string>)
    requires forall c | c in cs :: '$' !in c
    ensures '$' !in Terminated(cs, '#')
  {
    TerminatedFree(cs, '#', '$');
  }

  /** After the first `$`: a `$$` where the attribute section is empty becomes `$ $`. */
  lemma ReplaceSections(attrs: string, rels: string)
    requires '$' !in attrs && '$' !in rels
    ensures Replace("$" + attrs + "$" + rels, "$$", "$ $") == "$" + Blank(attrs) + "$" + rels
  {
    var pat, rep := "$$", "$ $";
    ReplaceFree(rels, pat, rep);
    var last := "$" + rels;
    assert Replace(last, pat, rep) == last by {
      if rels != [] {
        assert rels[0] in rels;
        assert last[..2] != pat by { assert last[1] == rels[0]; }
      }
      ReplaceStep('$', rels, pat, rep);
    }
    var tail := "$" + attrs + "$" + rels;
    if attrs == [] {
      assert tail == pat + rels;
      assert tail[..2] == pat && tail[2..] == rels;
    } else {
      assert attrs[0] in attrs;
      assert tail == ['$'] + (attrs + last);
      assert tail[..2] != pat by { assert tail[1] == attrs[0]; }
      ReplaceStep('$', attrs + last, pat, rep);
      ReplaceSkips(attrs, last, pat, rep);
    }
  }

  /** The last character of a concatenation with a non-empty end. */
  lemma LastOfAppend(x: string, y: string)
    requires y != []
    ensures (x + y)[|x + y| - 1] == y[|y| - 1]
  {
  }

  /** Replacing `$$` in an encoded text turns an empty attribute section into a blank. */
  lemma ReplaceEncoded(name: string, attrs: string, rels: string)
    requires '$' !in name && '$' !in attrs && '$' !in rels
    ensures Replace(name + "$" + attrs + "$" + rels, "$$", "$ $") == name + "$" + Blank(attrs) + "$" + rels
  {
    var tail := "$" + attrs + "$" + rels;
    assert name + "$" + attrs + "$" + rels == name + tail;
    ReplaceSkips(name, tail, "$$", "$ $");
    ReplaceSections(attrs, rels);
    assert name + ("$" + Blank(attrs) + "$" + rels) == name + "$" + Blank(attrs) + "$" + rels;
  }

  /** A final `$` is padded with a blank, and a text ending in a relationship is kept. */
  lemma PadTrailingSection(front: string, rels: string)
    requires front != [] && front[|front| - 1] == '$' && '$' !in rels
    ensures PadTrailing(front + rels) == front + Blank(rels)
  {
    if rels == [] {
      assert front + rels == front;
    } else {
      LastOfAppend(front, rels);
      assert rels[|rels| - 1] in rels;
    }
  }

  /** The padding leaves an encoded text as it is, except that empty sections become blanks. */
  lemma PadEncoded(name: string, attrs: string, rels: string)
    requires '$' !in name && '$' !in attrs && '$' !in rels
    ensures PadDelimiters(name + "$" + attrs + "$" + rels) == name + "$" + Blank(attrs) + "$" + Blank(rels)
  {
    ReplaceEncoded(name, attrs, rels);
    LastOfAppend(name + "$" + Blank(attrs), "$");
    PadTrailingSection(name + "$" + Blank(attrs) + "$", rels);
  }

  /** An encoded text pads and splits at `$` into its three sections. */
  lemma SplitEncoded(name: string, attrs: string, rels: string)
    requires name != [] && '$' !in name && '$' !in attrs && '$' !in rels
    ensures Split(PadDelimiters(name + "$" + attrs + "$" + rels), '$') == [name, Blank(attrs), Blank(rels)]
  {
    PadEncoded(name, attrs, rels);
    var cs := [name, Blank(attrs)];
    assert Terminated(cs, '$') == name + "$" + Blank(attrs) + "$" by {
      assert cs[..1] == [name];
      assert [name][..0] == [];
      assert Terminated([name], '$') == name + "$";
      assert Terminated(cs, '$') == Terminated([name], '$') + Blank(attrs) + "$";
    }
    assert Terminated(cs, '$') + Blank(rels) == name + "$" + Blank(attrs) + "$" + Blank(rels);
    SplitFields(cs, Blank(rels), '$');
  }

  /** A blank section decodes to nothing. */
  lemma BlankSection()
    ensures Split(" ", '#') == [" "]
    ensures Trim(" ") == []
  {
    TrimBlank(" ");
  }

  /** A blank section adds no attribute and no relationship. */
  lemma BlankDecodes(v: EntityValue, registry: seq<string>)
    ensures DecodeAttributes(v, [" "]) == Progress(v, None)
    ensures DecodeRelationships(v, [" "], registry) == Progress(v, None)
  {
    BlankSection();
    assert [" "][1..] == [];
  }

  /** The attribute section of an encoded entity splits into its chunks (or one blank). */
  lemma AttributeSection(attrs: seq<AttrValue>)
    requires forall a | a in attrs :: Names.IsIdentifier(a.name)
    ensures var s := Terminated(AttributeChunks(attrs), '#');
      && '$' !in s
      && Split(Blank(s), '#') == if attrs == [] then [" "] else AttributeChunks(attrs)
  {
    var cs := AttributeChunks(attrs);
    forall c | c in cs
      ensures c != [] && '$' !in c && '#' !in c
    {
      var i :| 0 <= i < |cs| && cs[i] == c;
      assert attrs[i] in attrs;
      AttributeChunkFacts(attrs[i]);
    }
    SectionFree(cs);
    if attrs == [] {
      BlankSection();
    } else {
      SplitChunks(cs, '#');
    }
  }

  /** The relationship section of an encoded entity splits into its chunks (or one blank). */
  lemma RelationshipSection(rels: seq<RelValue>)
    requires forall r | r in rels :: Names.IsIdentifier(r.name) && Names.IsIdentifier(r.target)
    ensures var s := Terminated(RelationshipChunks(rels), '#');
      && '$' !in s
      && Split(Blank(s), '#') == if rels == [] then [" "] else RelationshipChunks(rels)
  {
    var cs := RelationshipChunks(rels);
    forall c | c in cs
      ensures c != [] && '$' !in c && '#' !in c
    {
      var i :| 0 <= i < |cs| && cs[i] == c;
      assert rels[i] in rels;
      RelationshipChunkFacts(rels[i]);
    }
    SectionFree(cs);
    if rels == [] {
      BlankSection();
    } else {
      SplitChunks(cs, '#');
    }
  }

  // ---------------------------------------------------------------------------------------
  // The round trip.
  // ---------------------------------------------------------------------------------------

  /** A text that pads and splits into three sections, the first a new name, decodes section by section. */
  lemma DecodeSections(text: string, registered: seq<string>, name: string, attrs: string, rels: string)
    requires Split(PadDelimiters(text), '$') == [name, attrs, rels]
    requires Names.IsIdentifier(name) && name !in registered
    ensures var p := DecodeAttributes(EntityValue(name, [], []), Split(attrs, '#'));
      var q := DecodeRelationships(p.entity, Split(rels, '#'), registered + [name]);
      Decode(text, registered) == if p.failure.Some? then Built(p.entity, p.failure) else Built(q.entity, q.failure)
  {
    assert CreateEntity(name, registered) == Success(EntityValue(name, [], []));
  }

  /** The attribute section of an encoded entity decodes to its attributes, in order. */
  lemma AttributesRoundTrip(v0: EntityValue, attrs: seq<AttrValue>)
    requires v0.attributes == []
    requires forall a | a in attrs :: Names.IsIdentifier(a.name)
    requires KeyNameUnique(attrs) && AtMostOneKey(attrs)
    ensures DecodeAttributes(v0, Split(Blank(Terminated(AttributeChunks(attrs), '#')), '#'))
              == Progress(v0.(attributes := attrs), None)
  {
    AttributeSection(attrs);
    if attrs == [] {
      BlankDecodes(v0, []);
      assert v0.(attributes := attrs) == v0;
    } else {
      assert attrs[..0] == [];
      DecodeAttributesFrom(v0, attrs, 0);
      assert AttributeChunks(attrs)[0..] == AttributeChunks(attrs);
    }
  }

  /** The relationship section of an encoded entity decodes to its relationships, in order. */
  lemma RelationshipsRoundTrip(v1: EntityValue, rels: seq<RelValue>, registry: seq<string>)
    requires v1.relationships == [] && (rels != [] ==> HasKey(v1))
    requires forall r | r in rels :: Names.IsIdentifier(r.name) && Names.IsIdentifier(r.target) && r.target in registry
    ensures DecodeRelationships(v1, Split(Blank(Terminated(RelationshipChunks(rels), '#')), '#'), registry)
              == Progress(v1.(relationships := rels), None)
  {
    RelationshipSection(rels);
    if rels == [] {
      BlankDecodes(v1, registry);
      assert v1.(relationships := rels) == v1;
    } else {
      assert rels[..0] == [];
      DecodeRelationshipsFrom(v1, rels, 0, registry);
      assert RelationshipChunks(rels)[0..] == RelationshipChunks(rels);
    }
  }

  /** Decoding the encoding of an encodable entity rebuilds it, with no failure. */
  lemma RoundTrip(v: EntityValue, registered: seq<string>)
    requires Encodable(v, registered)
    ensures Decode(Encode(v), registered) == Built(v, None)
  {
    var a := Terminated(AttributeChunks(v.attributes), '#');
    var r := Terminated(RelationshipChunks(v.relationships), '#');
    AttributeSection(v.attributes);
    RelationshipSection(v.relationships);
    Names.IdentifierIsPlain(v.name);
    SplitEncoded(v.name, a, r);
    DecodeSections(Encode(v), registered, v.name, Blank(a), Blank(r));
    var v0 := EntityValue(v.name, [], []);
    var v1 := v0.(attributes := v.attributes);
    AttributesRoundTrip(v0, v.attributes);
    assert HasKey(v1) == HasKey(v);
    RelationshipsRoundTrip(v1, v.relationships, registered + [v.name]);
    assert v1.(relationships := v.relationships) == v;
  }

  /** Adding a non-key `n` after the key `n`, then clearing the flag of the first `n`, unflags the key. */
  lemma SecondNameClearsKey(v: EntityValue, n: string, t: AttributeType)
    requires Names.IsIdentifier(n) && v.attributes == [AttrValue(n, t, true)]
    ensures AddKeyed(v, n, t, false) == Progress(v.(attributes := [AttrValue(n, t, false), AttrValue(n, t, false)]), None)
  {
    var plain := AttrValue(n, t, false);
    var w := v.(attributes := v.attributes + [plain]);
    assert AddAttribute(v, n, t) == Success(w);
    assert AttrNames(w.attributes) == [n, n];
    IndexOfIs(AttrNames(w.attributes), n, 0);
    assert w.attributes[0 := w.attributes[0].(isPrimaryKey := false)] == [plain, plain];
  }

  /** The attribute chunks of a key `n` and a non-key `n` decode to two non-key `n`s. */
  lemma RepeatedKeyNameChunks(v0: EntityValue, n: string, t: AttributeType)
    requires Names.IsIdentifier(n) && v0.attributes == []
    ensures var key := AttrValue(n, t, true);
      var plain := AttrValue(n, t, false);
      DecodeAttributes(v0, AttributeChunks([key, plain])) == Progress(v0.(attributes := [plain, plain]), None)
  {
    var key := AttrValue(n, t, true);
    var plain := AttrValue(n, t, false);
    var v1 := v0.(attributes := [key]);
    var v2 := v0.(attributes := [plain, plain]);
    var c := AttributeChunks([key, plain]);
    assert c[0] == AttributeChunk(key) && c[1..] == [AttributeChunk(plain)];
    assert DecodeAttribute(v0, c[0]) == Progress(v1, None) by {
      assert v0.attributes + [key] == [key];
      DecodeAttributeStep(v0, key);
    }
    assert DecodeAttribute(v1, c[1]) == Progress(v2, None) by {
      AttributeChunkDecodes(v1, plain);
      SecondNameClearsKey(v1, n, t);
    }
    assert DecodeAttributes(v1, c[1..]) == Progress(v2, None) by {
      assert c[1..][0] == c[1] && c[1..][1..] == [];
    }
  }

  /**
   * The round trip needs the key's name to be unique. A key `n` followed by a non-key `n`
   * (for `id` INTEGER: `name$id:INTEGER_PRIMARY_KEY#id:INTEGER#$`) decodes without the key:
   * the second chunk's `setPrimaryKey(n, false)` clears the first `n`.
   */
  lemma RepeatedKeyNameLost(name: string, n: string, t: AttributeType, registered: seq<string>)
    requires Names.IsIdentifier(name) && name !in registered && Names.IsIdentifier(n)
    ensures var key := AttrValue(n, t, true);
      var plain := AttrValue(n, t, false);
      Decode(Encode(EntityValue(name, [key, plain], [])), registered) == Built(EntityValue(name, [plain, plain], []), None)
  {
    var key := AttrValue(n, t, true);
    var plain := AttrValue(n, t, false);
    var attrs := [key, plain];
    var a := Terminated(AttributeChunks(attrs), '#');
    var r := Terminated(RelationshipChunks([]), '#');
    AttributeSection(attrs);
    RelationshipSection([]);
    Names.IdentifierIsPlain(name);
    SplitEncoded(name, a, r);
    DecodeSections(Encode(EntityValue(name, attrs, [])), registered, name, Blank(a), Blank(r));
    var v0 := EntityValue(name, [], []);
    RepeatedKeyNameChunks(v0, n, t);
    BlankDecodes(v0.(attributes := [plain, plain]), registered + [name]);
  }

  // ---------------------------------------------------------------------------------------
  // Scenarios.
  // ---------------------------------------------------------------------------------------

  /** An entity with one attribute, the key, and no relationships, in text form. */
  lemma EncodeSingleKey(name: string, attr: string, t: AttributeType)
    ensures Encode(EntityValue(name, [AttrValue(attr, t, true)], []))
              == name + "$" + attr + ":" + TypeName(t) + KeySuffix + "#" + "$"
  {
    var v := EntityValue(name, [AttrValue(attr, t, true)], []);
    var chunks := AttributeChunks(v.attributes);
    assert chunks == [attr + ":" + TypeName(t) + KeySuffix];
    assert Terminated(chunks, '#') == chunks[0] + "#" by {
      assert chunks[..0] == [];
    }
    assert RelationshipChunks(v.relationships) == [];
  }

  /** A name followed by a single `$` fails with "Entity malformed" after the entity is made. */
  lemma MissingSection(name: string, registered: seq<string>)
    requires Names.IsIdentifier(name) && name !in registered
    ensures Decode(name + "$", registered) == Built(EntityValue(name, [], []), Some("Entity malformed"))
  {
    var text := name + "$";
    Names.IdentifierIsPlain(name);
    ReplaceSkips(name, "$", "$$", "$ $");
    assert Replace("$", "$$", "$ $") == "$";
    assert PadDelimiters(text) == name + "$ ";
    assert Terminated([name], '$') + " " == name + "$ " by {
      assert [name][..0] == [];
    }
    SplitFields([name], " ", '$');
    assert Split(PadDelimiters(text), '$') == [name, " "];
  }

  /**
   * A trimmed chunk that splits into a name and a target fails on an entity without a key:
   * on the target when it is not registered, otherwise on the key.
   */
  lemma ChunkFailsWithoutKey(v: EntityValue, c: string, r: RelValue, registry: seq<string>)
    requires c != [] && Trim(c) == c && Split(c, ':') == [r.name, r.target]
    requires !HasKey(v)
    ensures DecodeRelationship(v, c, registry)
              == Progress(v, Some(if r.target in registry then KeyRequired else MissingTarget(r.target)))
  {
  }

  /** The one relationship chunk of a keyless entity fails, on the target or on the key. */
  lemma KeylessRelationshipChunk(v: EntityValue, rel: RelValue, registry: seq<string>)
    requires !HasKey(v)
    requires Names.IsIdentifier(rel.name) && Names.IsIdentifier(rel.target)
    ensures var failure :=
        if rel.target in registry then KeyRequired
        else MissingTarget(rel.target);
      DecodeRelationships(v, [RelationshipChunk(rel)], registry) == Progress(v, Some(failure))
  {
    RelationshipChunkFacts(rel);
    ChunkFailsWithoutKey(v, RelationshipChunk(rel), rel, registry);
    DecodeOneRelationship(v, RelationshipChunk(rel), registry);
  }

  /** A single relationship chunk decodes as that chunk alone. */
  lemma DecodeOneRelationship(v: EntityValue, c: string, registry: seq<string>)
    ensures var p := DecodeRelationship(v, c, registry);
      DecodeRelationships(v, [c], registry) == if p.failure.Some? then p else Progress(p.entity, None)
  {
    assert [c][1..] == [];
  }

  /**
   * An entity text with non-key attributes and one relationship: the entity is made and
   * its attributes are decoded, then the relationship fails, on a missing target or else on
   * the missing primary key.
   */
  lemma KeylessRelationship(name: string, attrs: seq<AttrValue>, rel: RelValue, registered: seq<string>)
    requires Names.IsIdentifier(name) && name !in registered
    requires forall a | a in attrs :: Names.IsIdentifier(a.name) && !a.isPrimaryKey
    requires Names.IsIdentifier(rel.name) && Names.IsIdentifier(rel.target)
    ensures var failure :=
        if rel.target in registered + [name] then KeyRequired
        else MissingTarget(rel.target);
      Decode(Encode(EntityValue(name, attrs, [rel])), registered) == Built(EntityValue(name, attrs, []), Some(failure))
  {
    var v := EntityValue(name, attrs, [rel]);
    var v0 := EntityValue(name, [], []);
    var v1 := v0.(attributes := attrs);
    var a := Terminated(AttributeChunks(attrs), '#');
    var r := Terminated(RelationshipChunks([rel]), '#');
    AttributeSection(attrs);
    RelationshipSection([rel]);
    Names.IdentifierIsPlain(name);
    SplitEncoded(name, a, r);
    DecodeSections(Encode(v), registered, name, Blank(a), Blank(r));
    assert AtMostOneKey(attrs) && KeyNameUnique(attrs) by {
      forall i | 0 <= i < |attrs| ensures !attrs[i].isPrimaryKey {
        assert attrs[i] in attrs;
      }
    }
    AttributesRoundTrip(v0, attrs);
    assert !HasKey(v1) by {
      forall i | 0 <= i < |attrs| ensures !KeyFlags(attrs)[i] {
        assert attrs[i] in attrs;
      }
    }
    assert RelationshipChunks([rel]) == [RelationshipChunk(rel)];
    KeylessRelationshipChunk(v1, rel, registered + [name]);
  }

  /** An entity named Pokemon whose only attribute is the INTEGER key `id`. */
  function PokemonWithKey(): EntityValue
  {
    EntityValue("Pokemon", [AttrValue("id", Integer, true)], [])
  }

  /** Pokemon with the key `id` encodes as `Pokemon$id:INTEGER_PRIMARY_KEY#$`, and decodes back. */
  lemma PokemonEncoding(registered: seq<string>)
    requires "Pokemon" !in registered
    ensures Encode(PokemonWithKey()) == "Pokemon$id:INTEGER_PRIMARY_KEY#$"
    ensures Decode("Pokemon$id:INTEGER_PRIMARY_KEY#$", registered) == Built(PokemonWithKey(), None)
  {
    var v := PokemonWithKey();
    calc {
      Encode(v);
      { EncodeSingleKey("Pokemon", "id", Integer); }
      "Pokemon" + "$" + "id" + ":" + TypeName(Integer) + KeySuffix + "#" + "$";
      { assert "Pokemon" + "$" + "id" + ":" + "INTEGER" + "_PRIMARY_KEY" + "#" + "$" == "Pokemon$id:INTEGER_PRIMARY_KEY#$" by {} }
      "Pokemon$id:INTEGER_PRIMARY_KEY#$";
    }
    assert KeyFlags(v.attributes)[0];
    RoundTrip(v, registered);
  }

  /** `Pokemon$$` decodes to an entity with no attributes and no relationships. */
  lemma PokemonEmptySections(registered: seq<string>)
    requires "Pokemon" !in registered
    ensures Decode("Pokemon$$", registered) == Built(EntityValue("Pokemon", [], []), None)
  {
    var v := EntityValue("Pokemon", [], []);
    assert AttributeChunks(v.attributes) == [] && RelationshipChunks(v.relationships) == [];
    assert Encode(v) == "Pokemon$$";
    RoundTrip(v, registered);
  }

  /**
   * `Pokemon$` has only two sections: it fails with "Entity malformed", but only after
   * the entity was constructed, and so registered.
   */
  lemma PokemonMissingSection(registered: seq<string>)
    requires "Pokemon" !in registered
    ensures Decode("Pokemon$", registered) == Built(EntityValue("Pokemon", [], []), Some("Entity malformed"))
  {
    assert "Pokemon" + "$" == "Pokemon$";
    MissingSection("Pokemon", registered);
  }

  /** The Pokemon of the registry test: four non-key attributes and an owner relationship to Trainer. */
  function OwnedPokemon(): EntityValue
  {
    EntityValue("Pokemon",
      [AttrValue("id", Integer, false), AttrValue("name", String, false),
       AttrValue("type", Float, false), AttrValue("image", Blob, false)],
      [RelValue("owner", "Trainer")])
  }

  /** Four strings, each followed by the delimiter. */
  lemma TerminatedFour(c1: string, c2: string, c3: string, c4: string, d: char)
    ensures Terminated([c1, c2, c3, c4], d) == c1 + [d] + c2 + [d] + c3 + [d] + c4 + [d]
  {
    var cs := [c1, c2, c3, c4];
    assert cs[..0] == [] && cs[..4] == cs;
    TerminatedPrefix(cs, 0, d);
    TerminatedPrefix(cs, 1, d);
    TerminatedPrefix(cs, 2, d);
    TerminatedPrefix(cs, 3, d);
  }

  /** The attribute chunks of the registry test's Pokemon. */
  lemma OwnedPokemonChunks()
    ensures AttributeChunks(OwnedPokemon().attributes) == ["id:INTEGER", "name:STRING", "type:FLOAT", "image:BLOB"]
  {
    var cs := AttributeChunks(OwnedPokemon().attributes);
    assert cs[0] == "id:INTEGER" by {}
    assert cs[1] == "name:STRING" by {}
    assert cs[2] == "type:FLOAT" by {}
    assert cs[3] == "image:BLOB" by {}
  }

  /** Concatenation regroups. */
  lemma Regroup(a: string, b: string, c: string)
    ensures a + (b + c) == a + b + c
  {
  }

  /** Those chunks, each followed by `#`, in two halves. */
  lemma OwnedPokemonAttributeText()
    ensures Terminated(["id:INTEGER", "name:STRING", "type:FLOAT", "image:BLOB"], '#')
            == "id:INTEGER#name:STRING#" + "type:FLOAT#image:BLOB#"
  {
    TerminatedFour("id:INTEGER", "name:STRING", "type:FLOAT", "image:BLOB", '#');
    assert "id:INTEGER" + "#" + "name:STRING" + "#" == "id:INTEGER#name:STRING#" by {}
    assert "type:FLOAT" + "#" + "image:BLOB" + "#" == "type:FLOAT#image:BLOB#" by {}
    var head := "id:INTEGER" + "#" + "name:STRING" + "#";
    Regroup(head, "type:FLOAT" + "#" + "image:BLOB", "#");
    Regroup(head, "type:FLOAT" + "#", "image:BLOB");
    Regroup(head, "type:FLOAT", "#");
  }

  /** The relationship section of the registry test's Pokemon. */
  lemma OwnedPokemonRelationshipText()
    ensures Terminated(RelationshipChunks(OwnedPokemon().relationships), '#') == "owner:Trainer#"
  {
    var rs := RelationshipChunks(OwnedPokemon().relationships);
    assert rs[0] == "owner:Trainer" by {}
    assert rs == ["owner:Trainer"];
    assert rs[..0] == [];
  }

  /** The name and the attribute section, joined by `$`. */
  lemma OwnedPokemonHead()
    ensures "Pokemon" + "$" + ("id:INTEGER#name:STRING#" + "type:FLOAT#image:BLOB#")
            == "Pokemon$id:INTEGER#name:STRING#type:FLOAT#image:BLOB#"
  {
    Regroup("Pokemon" + "$", "id:INTEGER#name:STRING#", "type:FLOAT#image:BLOB#");
    assert "Pokemon" + "$" + "id:INTEGER#name:STRING#" == "Pokemon$id:INTEGER#name:STRING#" by {}
    assert "Pokemon$id:INTEGER#name:STRING#" + "type:FLOAT#image:BLOB#"
        == "Pokemon$id:INTEGER#name:STRING#type:FLOAT#image:BLOB#" by {}
  }

  /** The name and the two sections, joined by `$`. */
  lemma OwnedPokemonSections()
    ensures "Pokemon" + "$" + ("id:INTEGER#name:STRING#" + "type:FLOAT#image:BLOB#") + "$" + "owner:Trainer#"
            == "Pokemon$id:INTEGER#name:STRING#type:FLOAT#image:BLOB#$owner:Trainer#"
  {
    OwnedPokemonHead();
  }

  /** That Pokemon is the text the registry test decodes. */
  lemma OwnedPokemonEncoding()
    ensures Encode(OwnedPokemon()) == "Pokemon$id:INTEGER#name:STRING#type:FLOAT#image:BLOB#$owner:Trainer#"
  {
    OwnedPokemonChunks();
    OwnedPokemonAttributeText();
    OwnedPokemonRelationshipText();
    OwnedPokemonSections();
  }

  /** The names in the registry test's Pokemon are identifiers, and none of its attributes is the key. */
  lemma OwnedPokemonNames()
    ensures Names.IsIdentifier("Pokemon") && Names.IsIdentifier("owner") && Names.IsIdentifier("Trainer")
    ensures forall a | a in OwnedPokemon().attributes :: Names.IsIdentifier(a.name) && !a.isPrimaryKey
    ensures MissingTarget("Trainer") == "Other Entity, \"Trainer,\" doesn't exist"
  {
    assert Names.IsIdentifier("id") && Names.IsIdentifier("name") && Names.IsIdentifier("type") && Names.IsIdentifier("image");
  }

  /**
   * `Pokemon$id:INTEGER#name:STRING#type:FLOAT#image:BLOB#$owner:Trainer#` decodes its four
   * attributes, none of them the key, then fails on the relationship: with the target-not-found
   * message while Trainer is not registered and, once it is, on the missing primary key.
   * Either way the entity is left registered with its attributes and no relationships.
   */
  lemma PokemonOwnerScenario(registered: seq<string>)
    requires "Pokemon" !in registered
    ensures var text := "Pokemon$id:INTEGER#name:STRING#type:FLOAT#image:BLOB#$owner:Trainer#";
      var built := OwnedPokemon().(relationships := []);
      && ("Trainer" !in registered ==>
            Decode(text, registered) == Built(built, Some("Other Entity, \"Trainer,\" doesn't exist")))
      && ("Trainer" in registered ==> Decode(text, registered) == Built(built, Some(KeyRequired)))
  {
    var v := OwnedPokemon();
    OwnedPokemonEncoding();
    OwnedPokemonNames();
    KeylessRelationship("Pokemon", v.attributes, RelValue("owner", "Trainer"), registered);
    assert "Trainer" in registered + ["Pokemon"] <==> "Trainer" in registered;
  }
}
