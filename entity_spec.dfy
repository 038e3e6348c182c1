/**
 * Entities as values: the name, the ordered attributes and the ordered relationships, with
 * one function per mutating operation of an entity that yields the new entity or the message
 * of the exception thrown. Every operation checks before it changes anything, so a failure
 * leaves the entity as it was. Relationship targets are entity names, since entities compare
 * by name; `registered` is the list of names the entity registry holds.
 */
module EntitySpec {
  import opened Wrappers
  import opened JavaStrings
  import opened AttributeTypes
  import Names

  /** The message of the exception thrown when a relationship is added to an entity without a key. */
  const KeyRequired: string := "Must have a primary key Attribute to add Relationships"

  datatype AttrValue = AttrValue(name: string, attrType: AttributeType, isPrimaryKey: bool)

  datatype RelValue = RelValue(name: string, target: string)

  datatype EntityValue = EntityValue(name: string, attributes: seq<AttrValue>, relationships: seq<RelValue>)

  function AttrNames(attrs: seq<AttrValue>): (r: seq<string>)
    ensures |r| == |attrs| && forall i | 0 <= i < |attrs| :: r[i] == attrs[i].name
  {
    seq(|attrs|, i requires 0 <= i < |attrs| => attrs[i].name)
  }

  function KeyFlags(attrs: seq<AttrValue>): (r: seq<bool>)
    ensures |r| == |attrs| && forall i | 0 <= i < |attrs| :: r[i] == attrs[i].isPrimaryKey
  {
    seq(|attrs|, i requires 0 <= i < |attrs| => attrs[i].isPrimaryKey)
  }

  function RelNames(rels: seq<RelValue>): (r: seq<string>)
    ensures |r| == |rels| && forall i | 0 <= i < |rels| :: r[i] == rels[i].name
  {
    seq(|rels|, i requires 0 <= i < |rels| => rels[i].name)
  }

  /** Some attribute is flagged as the primary key. */
  predicate HasKey(v: EntityValue)
  {
    true in KeyFlags(v.attributes)
  }

  /** The single-primary-key rule: no two attributes are both flagged. */
  predicate AtMostOneKey(attrs: seq<AttrValue>)
  {
    forall i, j | 0 <= i < j < |attrs| :: !(attrs[i].isPrimaryKey && attrs[j].isPrimaryKey)
  }

  /** `getPrimaryKey()`: the first flagged attribute, or None for null. */
  function PrimaryKey(v: EntityValue): (r: Option<AttrValue>)
    ensures r.None? <==> !HasKey(v)
    ensures r.Some? ==> r.value in v.attributes && r.value.isPrimaryKey
    ensures forall k | 0 <= k < |v.attributes| && v.attributes[k].isPrimaryKey
              && (forall j | 0 <= j < k :: !v.attributes[j].isPrimaryKey) :: r == Some(v.attributes[k])
  {
    match IndexOf(KeyFlags(v.attributes), true)
    case None => None
    case Some(i) => Some(v.attributes[i])
  }

  /** Under the single-key rule the first flagged attribute is the only one. */
  lemma PrimaryKeyUnique(v: EntityValue, k: nat)
    requires AtMostOneKey(v.attributes)
    requires k < |v.attributes| && v.attributes[k].isPrimaryKey
    ensures PrimaryKey(v) == Some(v.attributes[k])
  {
    assert KeyFlags(v.attributes)[k];
  }

  /** Attribute `k` renamed to `newName`, all else as it was. */
  predicate RenamedAttr(before: seq<AttrValue>, after: seq<AttrValue>, k: nat, newName: string)
  {
    && |after| == |before| && k < |before|
    && after[k] == before[k].(name := newName)
    && forall j | 0 <= j < |before| && j != k :: after[j] == before[j]
  }

  /** Relationship `k` renamed to `newName`, all else as it was. */
  predicate RenamedRel(before: seq<RelValue>, after: seq<RelValue>, k: nat, newName: string)
  {
    && |after| == |before| && k < |before|
    && after[k] == before[k].(name := newName)
    && forall j | 0 <= j < |before| && j != k :: after[j] == before[j]
  }

  /** A new entity with no attributes or relationships, or the reason it cannot be made. */
  function CreateEntity(name: string, registered: seq<string>): (r: Result<EntityValue, string>)
    ensures r.Success? <==> Names.IsIdentifier(name) && name !in registered
    ensures !Names.IsIdentifier(name) ==> r.ToOutcome() == Names.ValidateName(name, "Entity")
    ensures Names.IsIdentifier(name) && name in registered ==> r == Failure("Entity already registered")
    ensures r.Success? ==> r.value == EntityValue(name, [], [])
  {
    match Names.ValidateName(name, "Entity")
    case Fail(e) => Failure(e)
    case Pass =>
      if name in registered then Failure("Entity already registered")
      else Success(EntityValue(name, [], []))
  }

  /** `addAttribute`: a new non-key attribute at the end, if its name is valid (duplicates allowed). */
  function AddAttribute(v: EntityValue, name: string, t: AttributeType): (r: Result<EntityValue, string>)
    ensures r.ToOutcome() == Names.ValidateName(name, "Attribute")
    ensures r.Success? ==> r.value == v.(attributes := v.attributes + [AttrValue(name, t, false)])
  {
    match Names.ValidateName(name, "Attribute")
    case Fail(e) => Failure(e)
    case Pass => Success(v.(attributes := v.attributes + [AttrValue(name, t, false)]))
  }

  /**
   * `updateAttributeName`: a name in use fails first (even when it is `oldName` itself), then
   * a missing `oldName`, then the new name's validation; the last attribute named `oldName`
   * is the one renamed.
   */
  function UpdateAttributeName(v: EntityValue, oldName: string, newName: string): (r: Result<EntityValue, string>)
    ensures newName in AttrNames(v.attributes) ==> r == Failure("Attribute name in use")
    ensures newName !in AttrNames(v.attributes) && oldName !in AttrNames(v.attributes) ==>
              r == Failure("Requested Attribute not found")
    ensures newName !in AttrNames(v.attributes) && oldName in AttrNames(v.attributes) ==>
              r.ToOutcome() == Names.ValidateName(newName, "Attibute")
    ensures r.Success? <==>
              newName !in AttrNames(v.attributes) && oldName in AttrNames(v.attributes) && Names.IsIdentifier(newName)
    ensures r.Success? ==>
              && r.value.name == v.name && r.value.relationships == v.relationships
              && var k := LastIndexOf(AttrNames(v.attributes), oldName).value;
              && RenamedAttr(v.attributes, r.value.attributes, k, newName)
              && oldName !in AttrNames(v.attributes)[k + 1..]
  {
    var names := AttrNames(v.attributes);
    if newName in names then Failure("Attribute name in use")
    else match LastIndexOf(names, oldName)
      case None => Failure("Requested Attribute not found")
      case Some(k) =>
        match Names.ValidateName(newName, "Attibute")
        case Fail(e) => Failure(e)
        case Pass =>
          var a := v.attributes[k];
          Success(v.(attributes := v.attributes[k := a.(name := newName)]))
  }

  /**
   * `updateAttributeType`: the first attribute named `name` gets type `t`, and keeps its
   * key flag only when `t` can hold a key.
   */
  function UpdateAttributeType(v: EntityValue, name: string, t: AttributeType): (r: Result<EntityValue, string>)
    ensures r.Failure? <==> name !in AttrNames(v.attributes)
    ensures r.Failure? ==> r.error == "Requested Attribute not found"
    ensures r.Success? ==>
              && r.value.name == v.name && r.value.relationships == v.relationships
              && var k := IndexOf(AttrNames(v.attributes), name).value;
              && |r.value.attributes| == |v.attributes|
              && r.value.attributes[k].name == name && r.value.attributes[k].attrType == t
              && (r.value.attributes[k].isPrimaryKey <==> v.attributes[k].isPrimaryKey && KeyCapable(t))
              && forall j | 0 <= j < |v.attributes| && j != k :: r.value.attributes[j] == v.attributes[j]
  {
    match IndexOf(AttrNames(v.attributes), name)
    case None => Failure("Requested Attribute not found")
    case Some(k) =>
      var a := v.attributes[k];
      Success(v.(attributes := v.attributes[k := a.(attrType := t, isPrimaryKey := a.isPrimaryKey && KeyCapable(t))]))
  }

  /**
   * `setPrimaryKey`: setting a key while one exists fails first (even on the key itself),
   * then a missing name; otherwise the first attribute named `name` gets the flag.
   */
  function SetPrimaryKey(v: EntityValue, name: string, flag: bool): (r: Result<EntityValue, string>)
    ensures flag && HasKey(v) ==> r == Failure("Already has a primary key")
    ensures !(flag && HasKey(v)) && name !in AttrNames(v.attributes) ==> r == Failure("Requested Attribute not found")
    ensures r.Success? <==> !(flag && HasKey(v)) && name in AttrNames(v.attributes)
    ensures r.Success? ==>
              && r.value.name == v.name && r.value.relationships == v.relationships
              && var k := IndexOf(AttrNames(v.attributes), name).value;
              && r.value.attributes == v.attributes[k := v.attributes[k].(isPrimaryKey := flag)]
  {
    if flag && HasKey(v) then Failure("Already has a primary key")
    else match IndexOf(AttrNames(v.attributes), name)
      case None => Failure("Requested Attribute not found")
      case Some(k) => Success(v.(attributes := v.attributes[k := v.attributes[k].(isPrimaryKey := flag)]))
  }

  /**
   * `removeAttribute`: drops the first attribute named `name`; when it was the primary key,
   * every relationship goes too.
   */
  function RemoveAttribute(v: EntityValue, name: string): (r: Result<EntityValue, string>)
    ensures r.Failure? <==> name !in AttrNames(v.attributes)
    ensures r.Failure? ==> r.error == "Attribute not found"
    ensures r.Success? ==>
              && r.value.name == v.name
              && var k := IndexOf(AttrNames(v.attributes), name).value;
              && r.value.attributes == v.attributes[..k] + v.attributes[k + 1..]
              && (v.attributes[k].isPrimaryKey ==> r.value.relationships == [])
              && (!v.attributes[k].isPrimaryKey ==> r.value.relationships == v.relationships)
  {
    match IndexOf(AttrNames(v.attributes), name)
    case None => Failure("Attribute not found")
    case Some(k) =>
      var rels := if v.attributes[k].isPrimaryKey then [] else v.relationships;
      Success(EntityValue(v.name, v.attributes[..k] + v.attributes[k + 1..], rels))
  }

  /** Whether removing `name` clears the relationships (and so notifies the registry). */
  predicate RemovesKey(v: EntityValue, name: string)
  {
    match IndexOf(AttrNames(v.attributes), name)
    case None => false
    case Some(k) => v.attributes[k].isPrimaryKey
  }

  /**
   * `addRelationship`: no primary key fails first, then the name's validation, then a null
   * or unregistered target; otherwise one relationship is appended.
   */
  function AddRelationship(v: EntityValue, name: string, target: Option<string>, registered: seq<string>)
    : (r: Result<EntityValue, string>)
    ensures !HasKey(v) ==> r == Failure(KeyRequired)
    ensures HasKey(v) && !Names.IsIdentifier(name) ==> r.ToOutcome() == Names.ValidateName(name, "Relationship")
    ensures HasKey(v) && Names.IsIdentifier(name) && (target.None? || target.value !in registered) ==>
              r == Failure("Invalid Entity provided")
    ensures r.Success? <==>
              HasKey(v) && Names.IsIdentifier(name) && target.Some? && target.value in registered
    ensures r.Success? ==> r.value == v.(relationships := v.relationships + [RelValue(name, target.value)])
  {
    if !HasKey(v) then Failure(KeyRequired)
    else match Names.ValidateName(name, "Relationship")
      case Fail(e) => Failure(e)
      case Pass =>
        if target.None? || target.value !in registered then Failure("Invalid Entity provided")
        else Success(v.(relationships := v.relationships + [RelValue(name, target.value)]))
  }

  /**
   * `updateRelationshipName`: a name in use fails first, then a missing `oldName`; the last
   * relationship named `oldName` is renamed, with no validation of the new name.
   */
  function UpdateRelationshipName(v: EntityValue, oldName: string, newName: string): (r: Result<EntityValue, string>)
    ensures newName in RelNames(v.relationships) ==> r == Failure("Relationship name in use")
    ensures newName !in RelNames(v.relationships) && oldName !in RelNames(v.relationships) ==>
              r == Failure("Relationship not found")
    ensures r.Success? <==> newName !in RelNames(v.relationships) && oldName in RelNames(v.relationships)
    ensures r.Success? ==>
              && r.value.name == v.name && r.value.attributes == v.attributes
              && var k := LastIndexOf(RelNames(v.relationships), oldName).value;
              && RenamedRel(v.relationships, r.value.relationships, k, newName)
              && oldName !in RelNames(v.relationships)[k + 1..]
  {
    var names := RelNames(v.relationships);
    if newName in names then Failure("Relationship name in use")
    else match LastIndexOf(names, oldName)
      case None => Failure("Relationship not found")
      case Some(k) =>
        var rel := v.relationships[k];
        Success(v.(relationships := v.relationships[k := rel.(name := newName)]))
  }

  /**
   * `updateRelationshipEntity`: a missing relationship fails first, then a null or
   * unregistered target; otherwise the first relationship named `name` points at `target`.
   */
  function UpdateRelationshipEntity(v: EntityValue, name: string, target: Option<string>, registered: seq<string>)
    : (r: Result<EntityValue, string>)
    ensures name !in RelNames(v.relationships) ==> r == Failure("Relationship not found")
    ensures name in RelNames(v.relationships) && (target.None? || target.value !in registered) ==>
              r == Failure("Invalid Entity provided")
    ensures r.Success? <==> name in RelNames(v.relationships) && target.Some? && target.value in registered
    ensures r.Success? ==>
              && r.value.name == v.name && r.value.attributes == v.attributes
              && var k := IndexOf(RelNames(v.relationships), name).value;
              && r.value.relationships == v.relationships[k := RelValue(name, target.value)]
  {
    match IndexOf(RelNames(v.relationships), name)
    case None => Failure("Relationship not found")
    case Some(k) =>
      if target.None? || target.value !in registered then Failure("Invalid Entity provided")
      else Success(v.(relationships := v.relationships[k := v.relationships[k].(target := target.value)]))
  }

  /** `removeRelationship`: drops the first relationship named `name`. */
  function RemoveRelationship(v: EntityValue, name: string): (r: Result<EntityValue, string>)
    ensures r.Failure? <==> name !in RelNames(v.relationships)
    ensures r.Failure? ==> r.error == "Relationship not found"
    ensures r.Success? ==>
              && r.value.name == v.name && r.value.attributes == v.attributes
              && var k := IndexOf(RelNames(v.relationships), name).value;
              && r.value.relationships == v.relationships[..k] + v.relationships[k + 1..]
  {
    match IndexOf(RelNames(v.relationships), name)
    case None => Failure("Relationship not found")
    case Some(k) => Success(v.(relationships := v.relationships[..k] + v.relationships[k + 1..]))
  }

  /** The relationships that do not point at entity `name`. */
  function DropTargeting(rels: seq<RelValue>, name: string): (r: seq<RelValue>)
    ensures forall x | x in r :: x in rels && x.target != name
    ensures forall x | x in rels && x.target != name :: x in r
    ensures |r| <= |rels|
  {
    if rels == [] then []
    else
      var init := rels[..|rels| - 1];
      assert forall x | x in init :: x in rels;
      var kept := DropTargeting(init, name);
      if rels[|rels| - 1].target == name then kept else kept + [rels[|rels| - 1]]
  }

  lemma DropTargetingSnoc(rels: seq<RelValue>, r: RelValue, name: string)
    ensures DropTargeting(rels + [r], name)
              == if r.target == name then DropTargeting(rels, name) else DropTargeting(rels, name) + [r]
  {
    assert (rels + [r])[..|rels|] == rels;
  }

  // ---------------------------------------------------------------------------------------
  // Edits: any sequence of the mutating operations, failed ones leaving the entity unchanged.
  // ---------------------------------------------------------------------------------------

  datatype Edit =
    | AddAttr(name: string, t: AttributeType)
    | RenameAttr(oldName: string, newName: string)
    | Retype(name: string, t: AttributeType)
    | SetKey(name: string, flag: bool)
    | RemoveAttr(name: string)
    | AddRel(name: string, target: Option<string>)
    | RenameRel(oldName: string, newName: string)
    | Retarget(name: string, target: Option<string>)
    | RemoveRel(name: string)

  function Apply(v: EntityValue, e: Edit, registered: seq<string>): Result<EntityValue, string>
  {
    match e
    case AddAttr(n, t) => AddAttribute(v, n, t)
    case RenameAttr(o, n) => UpdateAttributeName(v, o, n)
    case Retype(n, t) => UpdateAttributeType(v, n, t)
    case SetKey(n, f) => SetPrimaryKey(v, n, f)
    case RemoveAttr(n) => RemoveAttribute(v, n)
    case AddRel(n, t) => AddRelationship(v, n, t, registered)
    case RenameRel(o, n) => UpdateRelationshipName(v, o, n)
    case Retarget(n, t) => UpdateRelationshipEntity(v, n, t, registered)
    case RemoveRel(n) => RemoveRelationship(v, n)
  }

  /** The entity after the edits in order, each failed edit caught and skipped. */
  function ApplyAll(v: EntityValue, es: seq<Edit>, registered: seq<string>): EntityValue
    decreases |es|
  {
    if es == [] then v else ApplyAll(Apply(v, es[0], registered).GetOr(v), es[1..], registered)
  }

  /** Removing one element keeps the single-key rule. */
  lemma AtMostOneKeyRemove(attrs: seq<AttrValue>, k: nat)
    requires AtMostOneKey(attrs) && k < |attrs|
    ensures AtMostOneKey(attrs[..k] + attrs[k + 1..])
  {
    var b := attrs[..k] + attrs[k + 1..];
    forall i, j | 0 <= i < j < |b|
      ensures !(b[i].isPrimaryKey && b[j].isPrimaryKey)
    {
      var i' := if i < k then i else i + 1;
      var j' := if j < k then j else j + 1;
      assert b[i] == attrs[i'] && b[j] == attrs[j'];
    }
  }

  /** Every single edit, successful or not, keeps at most one primary-key attribute. */
  lemma ApplyKeepsOneKey(v: EntityValue, e: Edit, registered: seq<string>)
    requires AtMostOneKey(v.attributes)
    ensures AtMostOneKey(Apply(v, e, registered).GetOr(v).attributes)
  {
    var r := Apply(v, e, registered);
    if r.Success? {
      var a := v.attributes;
      var b := r.value.attributes;
      match e
      case AddAttr(n, t) =>
        assert b == a + [AttrValue(n, t, false)];
      case RemoveAttr(n) =>
        AtMostOneKeyRemove(a, IndexOf(AttrNames(a), n).value);
      case SetKey(n, f) =>
        var k := IndexOf(AttrNames(a), n).value;
        if f {
          forall i | 0 <= i < |a|
            ensures !a[i].isPrimaryKey
          {
            assert KeyFlags(a)[i] == a[i].isPrimaryKey;
          }
        }
      case _ =>
    }
  }

  /** No two attributes share a name (the code does not enforce this on `addAttribute`). */
  predicate DistinctAttrNames(attrs: seq<AttrValue>)
  {
    forall i, j | 0 <= i < j < |attrs| :: attrs[i].name != attrs[j].name
  }

  /** The single-key rule holds after any sequence of edits that starts where it holds. */
  lemma {:induction false} ApplyAllKeepsOneKey(v: EntityValue, es: seq<Edit>, registered: seq<string>)
    requires AtMostOneKey(v.attributes)
    ensures AtMostOneKey(ApplyAll(v, es, registered).attributes)
    decreases |es|
  {
    if es != [] {
      ApplyKeepsOneKey(v, es[0], registered);
      ApplyAllKeepsOneKey(Apply(v, es[0], registered).GetOr(v), es[1..], registered);
    }
  }

  /** So an entity built from a new one by any edits never has two primary keys. */
  lemma EditedEntityHasOneKey(name: string, registered: seq<string>, es: seq<Edit>)
    requires CreateEntity(name, registered).Success?
    ensures AtMostOneKey(ApplyAll(CreateEntity(name, registered).value, es, registered).attributes)
  {
    ApplyAllKeepsOneKey(CreateEntity(name, registered).value, es, registered);
  }

  // ---------------------------------------------------------------------------------------
  // Inverse pairs and cascades.
  // ---------------------------------------------------------------------------------------

  /** Renaming an attribute and renaming it back restores the entity, when names are distinct. */
  lemma RenameAttributeBack(v: EntityValue, a: string, b: string)
    requires Names.IsIdentifier(a)
    requires DistinctAttrNames(v.attributes)
    requires UpdateAttributeName(v, a, b).Success?
    ensures UpdateAttributeName(UpdateAttributeName(v, a, b).value, b, a) == Success(v)
  {
    var w := UpdateAttributeName(v, a, b).value;
    var k := LastIndexOf(AttrNames(v.attributes), a).value;
    assert AttrNames(v.attributes)[k] == a;
    assert a !in AttrNames(w.attributes) by {
      forall j | 0 <= j < |w.attributes|
        ensures w.attributes[j].name != a
      {
        if j != k {
          assert v.attributes[j].name != v.attributes[k].name;
        }
      }
    }
    assert AttrNames(w.attributes)[k] == b;
    var k' := LastIndexOf(AttrNames(w.attributes), b).value;
    assert w.attributes[k := w.attributes[k].(name := a)] == v.attributes;
  }

  /** Adding a relationship under a fresh name and removing it restores the entity. */
  lemma AddThenRemoveRelationship(v: EntityValue, name: string, target: Option<string>, registered: seq<string>)
    requires name !in RelNames(v.relationships)
    requires AddRelationship(v, name, target, registered).Success?
    ensures RemoveRelationship(AddRelationship(v, name, target, registered).value, name) == Success(v)
  {
    var w := AddRelationship(v, name, target, registered).value;
    var n := |v.relationships|;
    assert RelNames(w.relationships) == RelNames(v.relationships) + [name];
    var k := IndexOf(RelNames(w.relationships), name).value;
    assert w.relationships[..n] == v.relationships;
    assert w.relationships[n + 1..] == [];
    assert w.relationships[..n] + w.relationships[n + 1..] == v.relationships;
  }

  /** Removing the primary-key attribute leaves an entity with no key and no relationships. */
  lemma RemoveKeyCascade(v: EntityValue, name: string)
    requires AtMostOneKey(v.attributes) && DistinctAttrNames(v.attributes)
    requires PrimaryKey(v).Some? && PrimaryKey(v).value.name == name
    ensures RemoveAttribute(v, name).Success?
    ensures RemoveAttribute(v, name).value.relationships == []
    ensures !HasKey(RemoveAttribute(v, name).value)
  {
    var a := v.attributes;
    var p := IndexOf(KeyFlags(a), true).value;
    assert AttrNames(a)[p] == name;
    var k := IndexOf(AttrNames(a), name).value;
    assert a[k].name == a[p].name;
    assert k == p;
    var b := RemoveAttribute(v, name).value.attributes;
    forall i | 0 <= i < |b|
      ensures !b[i].isPrimaryKey
    {
      if i < k {
        assert b[i] == a[i];
      } else {
        assert b[i] == a[i + 1];
      }
    }
  }

  /**
   * Adding `id`, making it the key, adding `pkmn_id` and making that the key too fails with
   * "Already has a primary key", and `id` stays the key.
   */
  lemma SecondKeyRefused(name: string)
    ensures var v0 := EntityValue(name, [], []);
      var v1 := AddAttribute(v0, "id", Integer).value;
      var v2 := SetPrimaryKey(v1, "id", true).value;
      var v3 := AddAttribute(v2, "pkmn_id", Integer).value;
      && SetPrimaryKey(v3, "pkmn_id", true) == Failure("Already has a primary key")
      && PrimaryKey(v3) == Some(AttrValue("id", Integer, true))
  {
    var v0 := EntityValue(name, [], []);
    var v1 := AddAttribute(v0, "id", Integer).value;
    assert AttrNames(v1.attributes) == ["id"];
    var v2 := SetPrimaryKey(v1, "id", true).value;
    var v3 := AddAttribute(v2, "pkmn_id", Integer).value;
    assert KeyFlags(v3.attributes)[0];
  }

  /**
   * The stronger rule "relationships only while a key exists" is not kept: retyping the key
   * attribute clears its flag but leaves the relationships in place.
   */
  lemma RetypeKeepsRelationships(v: EntityValue, name: string)
    requires AtMostOneKey(v.attributes) && v.relationships != []
    requires PrimaryKey(v).Some? && PrimaryKey(v).value.name == name
    requires DistinctAttrNames(v.attributes)
    ensures UpdateAttributeType(v, name, AttributeType.String).Success?
    ensures var w := UpdateAttributeType(v, name, AttributeType.String).value;
      !HasKey(w) && w.relationships == v.relationships
  {
    var a := v.attributes;
    var p := IndexOf(KeyFlags(a), true).value;
    assert AttrNames(a)[p] == name;
    var k := IndexOf(AttrNames(a), name).value;
    assert a[k].name == a[p].name;
    var b := UpdateAttributeType(v, name, AttributeType.String).value.attributes;
    forall i | 0 <= i < |b|
      ensures !KeyFlags(b)[i]
    {
      if i != k {
        assert b[i] == a[i];
      }
    }
  }
}
