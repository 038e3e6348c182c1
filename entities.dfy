/**
 * Entities on the heap: the relationship holder, the entity with its two ordered lists, and
 * the registry of entities. Each entity operation is proved against its function in
 * EntitySpec: the new state of the entity, seen as a value, is what that function yields
 * (the old state when it fails), and the outcome is its success or message.
 */
module Entities {
  import opened Wrappers
  import opened JavaStrings
  import opened AttributeTypes
  import opened EntitySpec
  import opened Attributes
  import Codec
  import Names

  /** A relationship from its owner to another entity, named. Neither field is validated. */
  class Relationship {
    var name: string
    var target: Entity

    constructor (name: string, target: Entity)
      ensures this.name == name && this.target == target
    {
      this.name := name;
      this.target := target;
    }

    /** `setName`: no validation. */
    method SetName(newName: string)
      modifies this`name
      ensures name == newName
    {
      name := newName;
    }

    /** `setEntity`: replaces only the target. */
    method SetEntity(e: Entity)
      modifies this`target
      ensures target == e
    {
      target := e;
    }
  }

  /** The targets of `rels`. */
  function Targets(rels: seq<Relationship>): set<Entity>
    reads (set r | r in rels)`target
  {
    set r | r in rels :: r.target
  }

  /** The relationships as values, each target given by its current name. */
  function RelValues(rels: seq<Relationship>): (r: seq<RelValue>)
    reads rels, Targets(rels)`name
    ensures |r| == |rels|
    ensures forall i {:trigger r[i]} | 0 <= i < |rels| :: r[i] == RelValue(rels[i].name, rels[i].target.name)
  {
    if rels == [] then []
    else
      assert Targets(rels[..|rels| - 1]) <= Targets(rels);
      RelValues(rels[..|rels| - 1]) + [RelValue(rels[|rels| - 1].name, rels[|rels| - 1].target.name)]
  }

  /** The attributes as values. */
  function AttrValues(attrs: seq<Attribute>): (r: seq<AttrValue>)
    reads attrs
    ensures |r| == |attrs| && forall i {:trigger r[i]} | 0 <= i < |attrs| :: r[i] == attrs[i].View()
  {
    seq(|attrs|, i requires 0 <= i < |attrs| reads attrs => attrs[i].View())
  }

  /** No element occurs twice: each one is absent from the part before it. */
  predicate Distinct<T(==)>(s: seq<T>)
  {
    s == [] || (s[|s| - 1] !in s[..|s| - 1] && Distinct(s[..|s| - 1]))
  }

  lemma DistinctAppend<T>(s: seq<T>, x: T)
    requires Distinct(s) && x !in s
    ensures Distinct(s + [x])
  {
    assert (s + [x])[..|s|] == s;
  }

  lemma {:induction false} DistinctAt<T>(s: seq<T>, i: nat, j: nat)
    requires Distinct(s) && i < j < |s|
    ensures s[i] != s[j]
  {
    var init := s[..|s| - 1];
    if j < |s| - 1 {
      DistinctAt(init, i, j);
    } else {
      assert s[i] == init[i];
    }
  }

  lemma {:induction false} DistinctRemove<T>(s: seq<T>, k: nat)
    requires Distinct(s) && k < |s|
    ensures Distinct(s[..k] + s[k + 1..])
  {
    var init := s[..|s| - 1];
    if k == |s| - 1 {
      assert s[..k] + s[k + 1..] == init;
    } else {
      DistinctRemove(init, k);
      var r := init[..k] + init[k + 1..];
      assert s[..k] + s[k + 1..] == r + [s[|s| - 1]];
      assert forall x | x in r :: x in init;
    }
  }

  /** The name a possibly absent target is known by. */
  function TargetName(e: Entity?): Option<string>
    reads e
  {
    if e == null then None else Some(e.name)
  }

  lemma DistinctOthers<T>(s: seq<T>, k: nat)
    requires Distinct(s) && k < |s|
    ensures forall j | 0 <= j < |s| && j != k :: s[j] != s[k]
  {
    forall j | 0 <= j < |s| && j != k
      ensures s[j] != s[k]
    {
      if j < k {
        DistinctAt(s, j, k);
      } else {
        DistinctAt(s, k, j);
      }
    }
  }

  lemma AttrValuesAppend(attrs: seq<Attribute>, a: Attribute)
    ensures AttrValues(attrs + [a]) == AttrValues(attrs) + [a.View()]
  {
  }

  lemma AttrValuesRemove(attrs: seq<Attribute>, k: nat)
    requires k < |attrs|
    ensures AttrValues(attrs[..k] + attrs[k + 1..]) == AttrValues(attrs)[..k] + AttrValues(attrs)[k + 1..]
  {
    var r := attrs[..k] + attrs[k + 1..];
    var a := AttrValues(attrs);
    forall i | 0 <= i < |r|
      ensures AttrValues(r)[i] == (a[..k] + a[k + 1..])[i]
    {
      if i < k {
        assert r[i] == attrs[i];
      } else {
        assert r[i] == attrs[i + 1];
      }
    }
  }

  lemma RelValuesAppend(rels: seq<Relationship>, r: Relationship)
    ensures RelValues(rels + [r]) == RelValues(rels) + [RelValue(r.name, r.target.name)]
  {
  }

  lemma RelValuesRemove(rels: seq<Relationship>, k: nat)
    requires k < |rels|
    ensures RelValues(rels[..k] + rels[k + 1..]) == RelValues(rels)[..k] + RelValues(rels)[k + 1..]
  {
    var r := rels[..k] + rels[k + 1..];
    var a, b := RelValues(rels), RelValues(r);
    forall i | 0 <= i < k
      ensures b[i] == a[i]
    {
      assert r[i] == rels[i];
    }
    forall i | k <= i < |b|
      ensures b[i] == a[i + 1]
    {
      assert r[i] == rels[i + 1];
    }
    Removed(a, b, k);
  }

  /** `b` is `a` without its element at `k`, told index by index. */
  lemma Removed<T>(a: seq<T>, b: seq<T>, k: nat)
    requires k < |a| && |b| == |a| - 1
    requires forall i | 0 <= i < k :: b[i] == a[i]
    requires forall i | k <= i < |b| :: b[i] == a[i + 1]
    ensures b == a[..k] + a[k + 1..]
  {
  }

  /** Two sequences that agree everywhere but at `k`. */
  lemma UpdatedAt<T>(a: seq<T>, b: seq<T>, k: nat)
    requires |a| == |b| && k < |a|
    requires forall j | 0 <= j < |a| && j != k :: b[j] == a[j]
    ensures b == a[k := b[k]]
  {
  }

  /** The names of `es`, in order. */
  function NamesOf(es: seq<Entity>): (r: seq<string>)
    reads (set e | e in es)`name
    ensures |r| == |es| && forall i {:trigger r[i]} | 0 <= i < |es| :: r[i] == es[i].name
  {
    if es == [] then [] else NamesOf(es[..|es| - 1]) + [es[|es| - 1].name]
  }

  lemma NamesOfAppend(es: seq<Entity>, e: Entity)
    ensures NamesOf(es + [e]) == NamesOf(es) + [e.name]
  {
    assert (es + [e])[..|es|] == es;
  }

  /** The kinds of update the registry reports, as its listeners receive them. */
  datatype UpdateInfo =
    | NameChanged(oldName: string, newName: string)   // {"name": "name", "old": ..., "new": ...}
    | RelationshipsCleared                            // {"name": "relationships-cleared"}

  datatype Event = Updated(entity: Entity, info: UpdateInfo) | Removed(entity: Entity)

  class Entity {
    var name: string
    var attributes: seq<Attribute>
    var relationships: seq<Relationship>

    /** Each attribute and each relationship object is held once. */
    predicate Valid()
      reads this`attributes, this`relationships
    {
      Distinct(attributes) && Distinct(relationships)
    }

    /** The entity as a value. */
    function View(): EntityValue
      reads this, attributes, relationships, Targets(relationships)`name
    {
      EntityValue(name, AttrValues(attributes), RelValues(relationships))
    }

    /** Stores a name already validated, with no attributes and no relationships. */
    constructor (name: string)
      requires Names.IsIdentifier(name)
      ensures View() == EntityValue(name, [], []) && Valid()
    {
      this.name := name;
      attributes := [];
      relationships := [];
    }

    /** `equals`: entities are the same when their names are. */
    predicate Equals(other: Entity?)
      reads this`name, other
    {
      other != null && name == other.name
    }

    /** Equality by name is an equivalence on entities, and no entity equals null. */
    static lemma EqualsIsEquivalence(a: Entity, b: Entity, c: Entity)
      ensures a.Equals(a) && !a.Equals(null)
      ensures a.Equals(b) <==> b.Equals(a)
      ensures a.Equals(b) && b.Equals(c) ==> a.Equals(c)
      ensures a.Equals(b) <==> a.name == b.name
    {
    }

    /** `setName`: the registry renames the entity, so that the registered names stay distinct. */
    method SetName(newName: string, reg: EntityManager) returns (o: Outcome<string>)
      requires reg.Valid()
      modifies this`name, reg`events
      ensures reg.Valid()
      ensures Names.IsIdentifier(newName) ==>
                o == if newName in old(reg.RegisteredNames()) then Fail("Entity already registered") else Pass
      ensures !Names.IsIdentifier(newName) ==> o == Names.ValidateName(newName, "Entity")
      ensures name == if o.Pass? then newName else old(name)
      ensures reg.events == old(reg.events) + if o.Pass? then [Updated(this, NameChanged(old(name), newName))] else []
    {
      o := reg.UpdateEntityName(this, newName);
    }

    /** `addAttribute`: a new attribute, validated as it is constructed, goes at the end. */
    method AddAttribute(n: string, t: AttributeType) returns (o: Outcome<string>)
      requires Valid()
      modifies this`attributes
      ensures Valid()
      ensures o == EntitySpec.AddAttribute(old(View()), n, t).ToOutcome()
      ensures View() == EntitySpec.AddAttribute(old(View()), n, t).GetOr(old(View()))
      ensures fresh(set a | a in attributes && a !in old(attributes))
    {
      var r := Attribute.Create(n, t);
      if r.Failure? {
        return Fail(r.error);
      }
      DistinctAppend(attributes, r.value);
      AttrValuesAppend(attributes, r.value);
      attributes := attributes + [r.value];
      return Pass;
    }

    /**
     * `updateAttributeName`: one pass over the attributes remembers the last one named
     * `oldName` and stops at the first one named `newName`; the remembered one is renamed.
     */
    method UpdateAttributeName(oldName: string, newName: string) returns (o: Outcome<string>)
      requires Valid()
      modifies attributes
      ensures Valid()
      ensures o == EntitySpec.UpdateAttributeName(old(View()), oldName, newName).ToOutcome()
      ensures View() == EntitySpec.UpdateAttributeName(old(View()), oldName, newName).GetOr(old(View()))
    {
      ghost var names := AttrNames(AttrValues(attributes));
      var k := -1;
      var i := 0;
      while i < |attributes|
        invariant 0 <= i <= |attributes|
        invariant forall j | 0 <= j < i :: names[j] != newName
        invariant k < i
        invariant k < 0 ==> forall j | 0 <= j < i :: names[j] != oldName
        invariant 0 <= k ==> names[k] == oldName && forall j | k < j < i :: names[j] != oldName
      {
        if attributes[i].name == oldName {
          k := i;
        }
        if attributes[i].name == newName {
          assert names[i] == newName;
          return Fail("Attribute name in use");
        }
        i := i + 1;
      }
      if k < 0 {
        return Fail("Requested Attribute not found");
      }
      LastIndexOfIs(names, oldName, k);
      o := RenameAttributeAt(k, newName);
    }

    /** The attribute at `k` is renamed when its setter accepts the name. */
    method RenameAttributeAt(k: nat, newName: string) returns (o: Outcome<string>)
      requires Valid() && k < |attributes|
      modifies attributes[k]
      ensures Valid()
      ensures o == Names.ValidateName(newName, "Attibute")
      ensures View() == if o.Fail? then old(View())
                        else old(View()).(attributes := old(View()).attributes[k := old(attributes[k].View()).(name := newName)])
    {
      ghost var v := View();
      DistinctOthers(attributes, k);
      o := attributes[k].SetName(newName);
      UpdatedAt(v.attributes, AttrValues(attributes), k);
      assert RelValues(relationships) == v.relationships;
    }

    /**
     * `updateAttributeType`: the first attribute named `name` gets the type, and loses the
     * key flag unless the type is INTEGER or LONG.
     */
    method UpdateAttributeType(n: string, t: AttributeType) returns (o: Outcome<string>)
      requires Valid()
      modifies attributes
      ensures Valid()
      ensures o == EntitySpec.UpdateAttributeType(old(View()), n, t).ToOutcome()
      ensures View() == EntitySpec.UpdateAttributeType(old(View()), n, t).GetOr(old(View()))
    {
      ghost var names := AttrNames(AttrValues(attributes));
      var k := 0;
      while k < |attributes| && attributes[k].name != n
        invariant 0 <= k <= |attributes|
        invariant forall j | 0 <= j < k :: names[j] != n
      {
        k := k + 1;
      }
      if k == |attributes| {
        return Fail("Requested Attribute not found");
      }
      IndexOfIs(names, n, k);
      RetypeAt(k, t);
      return Pass;
    }

    /** The attribute at `k` gets the type, and keeps the key flag only for INTEGER or LONG. */
    method RetypeAt(k: nat, t: AttributeType)
      requires Valid() && k < |attributes|
      modifies attributes[k]
      ensures Valid()
      ensures View() == old(View()).(attributes := old(View()).attributes[k :=
                old(attributes[k].View()).(attrType := t, isPrimaryKey := old(attributes[k].isPrimaryKey) && KeyCapable(t))])
    {
      ghost var v := View();
      DistinctOthers(attributes, k);
      var a := attributes[k];
      a.SetType(t);
      if a.attrType != AttributeType.Integer && a.attrType != AttributeType.Long {
        a.SetPrimaryKey(false);
      }
      UpdatedAt(v.attributes, AttrValues(attributes), k);
      assert RelValues(relationships) == v.relationships;
    }

    /** `getPrimaryKey`: the first attribute flagged as the key, or null. */
    method GetPrimaryKey() returns (a: Attribute?)
      ensures a == null <==> !HasKey(View())
      ensures a != null ==> a in attributes && Some(a.View()) == PrimaryKey(View())
    {
      ghost var flags := KeyFlags(AttrValues(attributes));
      var i := 0;
      while i < |attributes|
        invariant 0 <= i <= |attributes|
        invariant forall j | 0 <= j < i :: !flags[j]
      {
        if attributes[i].isPrimaryKey {
          IndexOfIs(flags, true, i);
          return attributes[i];
        }
        i := i + 1;
      }
      return null;
    }

    /**
     * `setPrimaryKey`: refused while any key exists and a key is asked for; otherwise the
     * first attribute named `name` gets the flag.
     */
    method SetPrimaryKey(n: string, flag: bool) returns (o: Outcome<string>)
      requires Valid()
      modifies attributes
      ensures Valid()
      ensures o == EntitySpec.SetPrimaryKey(old(View()), n, flag).ToOutcome()
      ensures View() == EntitySpec.SetPrimaryKey(old(View()), n, flag).GetOr(old(View()))
    {
      var key := GetPrimaryKey();
      if key != null && flag {
        return Fail("Already has a primary key");
      }
      ghost var names := AttrNames(AttrValues(attributes));
      var k := 0;
      while k < |attributes| && attributes[k].name != n
        invariant 0 <= k <= |attributes|
        invariant forall j | 0 <= j < k :: names[j] != n
      {
        k := k + 1;
      }
      if k == |attributes| {
        return Fail("Requested Attribute not found");
      }
      IndexOfIs(names, n, k);
      FlagAt(k, flag);
      return Pass;
    }

    /** The attribute at `k` gets the key flag. */
    method FlagAt(k: nat, flag: bool)
      requires Valid() && k < |attributes|
      modifies attributes[k]
      ensures Valid()
      ensures View() == old(View()).(attributes := old(View()).attributes[k := old(attributes[k].View()).(isPrimaryKey := flag)])
    {
      ghost var v := View();
      DistinctOthers(attributes, k);
      attributes[k].SetPrimaryKey(flag);
      UpdatedAt(v.attributes, AttrValues(attributes), k);
      assert RelValues(relationships) == v.relationships;
    }

    /**
     * `removeAttribute`: drops the first attribute named `name`; when it is the key, the
     * relationships are cleared first and the registry reports it.
     */
    method RemoveAttribute(n: string, reg: EntityManager) returns (o: Outcome<string>)
      requires Valid()
      modifies this`attributes, this`relationships, reg`events
      ensures Valid()
      ensures o == EntitySpec.RemoveAttribute(old(View()), n).ToOutcome()
      ensures View() == EntitySpec.RemoveAttribute(old(View()), n).GetOr(old(View()))
      ensures reg.events == old(reg.events) + if RemovesKey(old(View()), n) then [Updated(this, RelationshipsCleared)] else []
    {
      ghost var names := AttrNames(AttrValues(attributes));
      var k := 0;
      while k < |attributes| && attributes[k].name != n
        invariant 0 <= k <= |attributes|
        invariant forall j | 0 <= j < k :: names[j] != n
      {
        k := k + 1;
      }
      if k == |attributes| {
        return Fail("Attribute not found");
      }
      IndexOfIs(names, n, k);
      if attributes[k].isPrimaryKey {
        ClearRelationships(reg);
      }
      DropAttributeAt(k);
      return Pass;
    }

    /** Every relationship goes, and the registry reports it. */
    method ClearRelationships(reg: EntityManager)
      requires Valid()
      modifies this`relationships, reg`events
      ensures Valid()
      ensures View() == old(View()).(relationships := [])
      ensures reg.events == old(reg.events) + [Updated(this, RelationshipsCleared)]
    {
      relationships := [];
      reg.EntityClearedRelationships(this);
    }

    /** The attribute at `k` leaves the list; the others keep their order. */
    method DropAttributeAt(k: nat)
      requires Valid() && k < |attributes|
      modifies this`attributes
      ensures Valid()
      ensures View() == old(View()).(attributes := old(View()).attributes[..k] + old(View()).attributes[k + 1..])
    {
      DistinctRemove(attributes, k);
      AttrValuesRemove(attributes, k);
      attributes := attributes[..k] + attributes[k + 1..];
    }

    /**
     * `addRelationship`: needs a primary key, then a valid name, then a registered target;
     * the new relationship goes at the end.
     */
    method AddRelationship(n: string, target: Entity?, reg: EntityManager) returns (o: Outcome<string>)
      requires Valid()
      modifies this`relationships
      ensures Valid()
      ensures o == EntitySpec.AddRelationship(old(View()), n, TargetName(target), reg.RegisteredNames()).ToOutcome()
      ensures View() == EntitySpec.AddRelationship(old(View()), n, TargetName(target), reg.RegisteredNames()).GetOr(old(View()))
    {
      ghost var v := View();
      ghost var spec := EntitySpec.AddRelationship(v, n, TargetName(target), reg.RegisteredNames());
      var key := GetPrimaryKey();
      if key == null {
        assert spec == Failure(KeyRequired);
        return Fail(KeyRequired);
      }
      o := Names.ValidateName(n, "Relationship");
      if o.Fail? {
        assert spec == Failure(o.error);
        return;
      }
      if target == null || !reg.ContainsEntity(target) {
        assert spec == Failure("Invalid Entity provided");
        return Fail("Invalid Entity provided");
      }
      assert spec == Success(v.(relationships := v.relationships + [RelValue(n, target.name)]));
      AppendRelationship(n, target);
    }

    /** A new relationship to `target` goes at the end. */
    method AppendRelationship(n: string, target: Entity)
      requires Valid()
      modifies this`relationships
      ensures Valid()
      ensures View() == old(View()).(relationships := old(View()).relationships + [RelValue(n, target.name)])
    {
      var r := new Relationship(n, target);
      DistinctAppend(relationships, r);
      RelValuesAppend(relationships, r);
      relationships := relationships + [r];
    }

    /**
     * `updateRelationshipName`: as for attributes, a name in use fails before a missing one;
     * the last relationship named `oldName` is renamed, with no validation.
     */
    method UpdateRelationshipName(oldName: string, newName: string) returns (o: Outcome<string>)
      requires Valid()
      modifies relationships
      ensures Valid()
      ensures o == EntitySpec.UpdateRelationshipName(old(View()), oldName, newName).ToOutcome()
      ensures View() == EntitySpec.UpdateRelationshipName(old(View()), oldName, newName).GetOr(old(View()))
    {
      ghost var names := RelNames(RelValues(relationships));
      var k := -1;
      var i := 0;
      while i < |relationships|
        invariant 0 <= i <= |relationships|
        invariant forall j | 0 <= j < i :: names[j] != newName
        invariant k < i
        invariant k < 0 ==> forall j | 0 <= j < i :: names[j] != oldName
        invariant 0 <= k ==> names[k] == oldName && forall j | k < j < i :: names[j] != oldName
      {
        if relationships[i].name == oldName {
          k := i;
        }
        if relationships[i].name == newName {
          assert names[i] == newName;
          return Fail("Relationship name in use");
        }
        i := i + 1;
      }
      if k < 0 {
        return Fail("Relationship not found");
      }
      LastIndexOfIs(names, oldName, k);
      RenameRelationshipAt(k, newName);
      return Pass;
    }

    /** The relationship at `k` is renamed. */
    method RenameRelationshipAt(k: nat, newName: string)
      requires Valid() && k < |relationships|
      modifies relationships[k]
      ensures Valid()
      ensures View() == old(View()).(relationships := old(View()).relationships[k := old(View()).relationships[k].(name := newName)])
    {
      ghost var v := View();
      DistinctOthers(relationships, k);
      relationships[k].SetName(newName);
      UpdatedAt(v.relationships, RelValues(relationships), k);
    }

    /**
     * `updateRelationshipEntity`: the first relationship named `name` is pointed at the
     * target, which must be registered.
     */
    method UpdateRelationshipEntity(n: string, target: Entity?, reg: EntityManager) returns (o: Outcome<string>)
      requires Valid()
      modifies relationships
      ensures Valid()
      ensures o == EntitySpec.UpdateRelationshipEntity(old(View()), n, TargetName(target), reg.RegisteredNames()).ToOutcome()
      ensures View() == EntitySpec.UpdateRelationshipEntity(old(View()), n, TargetName(target), reg.RegisteredNames()).GetOr(old(View()))
    {
      ghost var names := RelNames(RelValues(relationships));
      var k := 0;
      while k < |relationships| && relationships[k].name != n
        invariant 0 <= k <= |relationships|
        invariant forall j | 0 <= j < k :: names[j] != n
      {
        k := k + 1;
      }
      if k == |relationships| {
        return Fail("Relationship not found");
      }
      IndexOfIs(names, n, k);
      if !reg.ContainsEntity(target) {
        return Fail("Invalid Entity provided");
      }
      RetargetAt(k, target);
      return Pass;
    }

    /** The relationship at `k` is pointed at `target`. */
    method RetargetAt(k: nat, target: Entity)
      requires Valid() && k < |relationships|
      modifies relationships[k]
      ensures Valid()
      ensures View() == old(View()).(relationships := old(View()).relationships[k := old(View()).relationships[k].(target := target.name)])
    {
      ghost var v := View();
      DistinctOthers(relationships, k);
      relationships[k].SetEntity(target);
      UpdatedAt(v.relationships, RelValues(relationships), k);
    }

    /** `removeRelationship`: drops the first relationship named `name`. */
    method RemoveRelationship(n: string) returns (o: Outcome<string>)
      requires Valid()
      modifies this`relationships
      ensures Valid()
      ensures o == EntitySpec.RemoveRelationship(old(View()), n).ToOutcome()
      ensures View() == EntitySpec.RemoveRelationship(old(View()), n).GetOr(old(View()))
    {
      ghost var names := RelNames(RelValues(relationships));
      var k := 0;
      while k < |relationships| && relationships[k].name != n
        invariant 0 <= k <= |relationships|
        invariant forall j | 0 <= j < k :: names[j] != n
      {
        k := k + 1;
      }
      if k == |relationships| {
        return Fail("Relationship not found");
      }
      IndexOfIs(names, n, k);
      DropRelationshipAt(k);
      return Pass;
    }

    /** The relationship at `k` leaves the list; the others keep their order. */
    method DropRelationshipAt(k: nat)
      requires Valid() && k < |relationships|
      modifies this`relationships
      ensures Valid()
      ensures View() == old(View()).(relationships := old(View()).relationships[..k] + old(View()).relationships[k + 1..])
    {
      DistinctRemove(relationships, k);
      RelValuesRemove(relationships, k);
      relationships := relationships[..k] + relationships[k + 1..];
    }

    /**
     * `new Entity(name)`: validates the name with the role "Entity", constructs the entity
     * and registers it; a name already registered fails with "Entity already registered".
     */
    static method Create(name: string, reg: EntityManager) returns (r: Result<Entity, string>)
      requires reg.Valid()
      modifies reg`entities
      ensures reg.Valid()
      ensures r.ToOutcome() == CreateEntity(name, old(reg.RegisteredNames())).ToOutcome()
      ensures r.Failure? ==> reg.entities == old(reg.entities)
      ensures r.Success? ==>
                && fresh(r.value) && r.value.Valid() && r.value.View() == EntityValue(name, [], [])
                && reg.entities == old(reg.entities) + [r.value]
    {
      var o := Names.ValidateName(name, "Entity");
      if o.Fail? {
        return Failure(o.error);
      }
      var e := new Entity(name);
      var added := reg.RegisterEntity(e);
      if !added {
        return Failure("Entity already registered");
      }
      return Success(e);
    }

    /**
     * `toString`: the name and `$`, then for each attribute its name, `:`, its type's name,
     * the key marker if it is the key, and `#`; then `$`, and for each relationship its name,
     * `:`, its target's current name and `#`.
     */
    method ToString() returns (s: string)
      ensures s == Codec.Encode(View())
    {
      var attrText := AttributesText();
      var relText := RelationshipsText();
      s := name + "$" + attrText + "$" + relText;
    }

    /** The attribute chunks of `toString`, each followed by `#`. */
    method AttributesText() returns (text: string)
      ensures text == Terminated(Codec.AttributeChunks(AttrValues(attributes)), '#')
    {
      ghost var cs := Codec.AttributeChunks(AttrValues(attributes));
      text := "";
      var i := 0;
      while i < |attributes|
        invariant 0 <= i <= |attributes|
        invariant text == Terminated(cs[..i], '#')
      {
        var a := attributes[i];
        var chunk := a.name + ":" + TypeName(a.attrType) + (if a.isPrimaryKey then Codec.KeySuffix else "");
        assert chunk == cs[i];
        TerminatedPrefix(cs, i, '#');
        text := text + chunk + "#";
        i := i + 1;
      }
      assert cs[..i] == cs;
      assert AttrValues(attributes) == old(AttrValues(attributes));
    }

    /** The relationship chunks of `toString`, each followed by `#`. */
    method RelationshipsText() returns (text: string)
      ensures text == Terminated(Codec.RelationshipChunks(RelValues(relationships)), '#')
    {
      ghost var rs := Codec.RelationshipChunks(RelValues(relationships));
      text := "";
      var j := 0;
      while j < |relationships|
        invariant 0 <= j <= |relationships|
        invariant text == Terminated(rs[..j], '#')
      {
        var r := relationships[j];
        var chunk := r.name + ":" + r.target.name;
        assert chunk == rs[j];
        TerminatedPrefix(rs, j, '#');
        text := text + chunk + "#";
        j := j + 1;
      }
      assert rs[..j] == rs;
      assert RelValues(relationships) == old(RelValues(relationships));
    }

    /**
     * `fromString`: pads the text so that `split` keeps empty sections, splits it at `$`,
     * constructs (and so registers) the entity named by the first piece, demands exactly
     * three pieces, then decodes the attribute chunks and the relationship chunks. A failure
     * after construction leaves the partly built entity registered.
     */
    static method FromString(text: string, reg: EntityManager) returns (r: Result<Entity, string>)
      requires reg.Valid()
      modifies reg`entities
      ensures reg.Valid()
      ensures match Codec.Decode(text, old(reg.RegisteredNames()))
              case Rejected(err) => r == Failure(err) && reg.entities == old(reg.entities)
              case Built(v, failure) =>
                && |reg.entities| == |old(reg.entities)| + 1
                && reg.entities[..|old(reg.entities)|] == old(reg.entities)
                && var e := reg.entities[|old(reg.entities)|];
                && fresh(e) && e.Valid() && e.View() == v
                && r == if failure.None? then Success(e) else Failure(failure.value)
    {
      ghost var names := reg.RegisteredNames();
      ghost var d := Codec.Decode(text, names);
      var padded := Codec.PadDelimiters(text);
      SplitNotEmpty(padded, '$');
      var pieces := Split(padded, '$');
      var c := Create(pieces[0], reg);
      if c.Failure? {
        assert d == Codec.Rejected(c.error);
        return Failure(c.error);
      }
      var e := c.value;
      assert reg.entities[..|old(reg.entities)|] == old(reg.entities);
      NamesOfAppend(old(reg.entities), e);
      assert reg.RegisteredNames() == names + [pieces[0]];
      var failure := e.DecodePieces(pieces, reg);
      assert d == Codec.Built(e.View(), failure);
      r := if failure.None? then Success(e) else Failure(failure.value);
    }

    /**
     * The pieces of the text after the name: there must be three, then the attribute chunks
     * are decoded and, when every one of them was, the relationship chunks.
     */
    method DecodePieces(pieces: seq<string>, reg: EntityManager) returns (failure: Option<string>)
      requires Valid() && reg.Valid()
      requires attributes == [] && relationships == []
      modifies this`attributes, this`relationships
      ensures Valid()
      ensures Codec.DecodePieces(old(View()), pieces, reg.RegisteredNames()) == Codec.Progress(View(), failure)
    {
      if |pieces| != 3 {
        return Some("Entity malformed");
      }
      failure := DecodeAttributeChunks(Split(pieces[1], '#'));
      if failure.Some? {
        return;
      }
      failure := DecodeRelationshipChunks(Split(pieces[2], '#'), reg);
    }

    /** The attribute chunks in order, stopping at the first that fails. */
    method DecodeAttributeChunks(chunks: seq<string>) returns (failure: Option<string>)
      requires Valid()
      modifies this`attributes, attributes
      ensures Valid()
      ensures Codec.DecodeAttributes(old(View()), chunks) == Codec.Progress(View(), failure)
      ensures fresh(set a | a in attributes && a !in old(attributes))
    {
      var i := 0;
      while i < |chunks|
        invariant 0 <= i <= |chunks|
        invariant Valid()
        invariant Codec.DecodeAttributes(old(View()), chunks) == Codec.DecodeAttributes(View(), chunks[i..])
        invariant fresh(set a | a in attributes && a !in old(attributes))
      {
        assert chunks[i..][0] == chunks[i] && chunks[i..][1..] == chunks[i + 1..];
        failure := DecodeAttributeChunk(chunks[i]);
        if failure.Some? {
          return;
        }
        i := i + 1;
      }
      return None;
    }

    /** One attribute chunk: blank chunks are skipped; the chunk must split at `:` into two pieces. */
    method DecodeAttributeChunk(chunk: string) returns (failure: Option<string>)
      requires Valid()
      modifies this`attributes, attributes
      ensures Valid()
      ensures Codec.DecodeAttribute(old(View()), chunk) == Codec.Progress(View(), failure)
      ensures fresh(set a | a in attributes && a !in old(attributes))
    {
      var t := Trim(chunk);
      if t == [] {
        return None;
      }
      var parts := Split(t, ':');
      if |parts| != 2 {
        return Some("Attribute malformed");
      }
      failure := DecodeAttributeParts(parts[0], parts[1]);
    }

    /**
     * A chunk split into its name and type parts: the key marker is detected and removed, the
     * type looked up, the attribute added, and then the key flag set by name.
     */
    method DecodeAttributeParts(n: string, typePart: string) returns (failure: Option<string>)
      requires Valid()
      modifies this`attributes, attributes
      ensures Valid()
      ensures Codec.DecodeAttributeParts(old(View()), n, typePart) == Codec.Progress(View(), failure)
      ensures fresh(set a | a in attributes && a !in old(attributes))
    {
      var isKey := Contains(typePart, Codec.KeySuffix);
      var typeName := if isKey then Replace(typePart, Codec.KeySuffix, "") else typePart;
      var t := ValueOf(typeName);
      if t.None? {
        return Some(NoEnumConstant(typeName));
      }
      failure := AddKeyed(n, t.value, isKey);
    }

    /** A new attribute goes at the end; then the key flag is set by name. */
    method AddKeyed(n: string, t: AttributeType, isKey: bool) returns (failure: Option<string>)
      requires Valid()
      modifies this`attributes, attributes
      ensures Valid()
      ensures Codec.AddKeyed(old(View()), n, t, isKey) == Codec.Progress(View(), failure)
      ensures fresh(set a | a in attributes && a !in old(attributes))
    {
      ghost var v := View();
      ghost var spec := Codec.AddKeyed(v, n, t, isKey);
      ghost var added := EntitySpec.AddAttribute(v, n, t);
      var o := AddAttribute(n, t);
      if o.Fail? {
        assert spec == Codec.Progress(v, Some(o.error));
        return Some(o.error);
      }
      ghost var v1 := View();
      assert v1 == added.value;
      ghost var keyed := EntitySpec.SetPrimaryKey(v1, n, isKey);
      assert spec == if keyed.Failure? then Codec.Progress(v1, Some(keyed.error)) else Codec.Progress(keyed.value, None);
      o := SetPrimaryKey(n, isKey);
      return if o.Fail? then Some(o.error) else None;
    }

    /** The relationship chunks in order, stopping at the first that fails. */
    method DecodeRelationshipChunks(chunks: seq<string>, reg: EntityManager) returns (failure: Option<string>)
      requires Valid() && reg.Valid()
      modifies this`relationships
      ensures Valid()
      ensures Codec.DecodeRelationships(old(View()), chunks, reg.RegisteredNames()) == Codec.Progress(View(), failure)
    {
      var i := 0;
      while i < |chunks|
        invariant 0 <= i <= |chunks|
        invariant Valid()
        invariant Codec.DecodeRelationships(old(View()), chunks, reg.RegisteredNames())
                    == Codec.DecodeRelationships(View(), chunks[i..], reg.RegisteredNames())
      {
        assert chunks[i..][0] == chunks[i] && chunks[i..][1..] == chunks[i + 1..];
        failure := DecodeRelationshipChunk(chunks[i], reg);
        if failure.Some? {
          return;
        }
        i := i + 1;
      }
      return None;
    }

    /**
     * One relationship chunk: blank chunks are skipped; the chunk must split at `:` into two
     * pieces; the target is looked up in the registry by name before the relationship is added.
     */
    method DecodeRelationshipChunk(chunk: string, reg: EntityManager) returns (failure: Option<string>)
      requires Valid() && reg.Valid()
      modifies this`relationships
      ensures Valid()
      ensures Codec.DecodeRelationship(old(View()), chunk, reg.RegisteredNames()) == Codec.Progress(View(), failure)
    {
      ghost var v := View();
      ghost var names := reg.RegisteredNames();
      var t := Trim(chunk);
      if t == [] {
        return None;
      }
      var parts := Split(t, ':');
      if |parts| != 2 {
        return Some("Relationship malformed");
      }
      var other := reg.GetEntityByName(parts[1]);
      if other == null {
        return Some(Codec.MissingTarget(parts[1]));
      }
      ghost var added := EntitySpec.AddRelationship(v, parts[0], Some(parts[1]), names);
      assert Codec.DecodeRelationship(v, chunk, names)
               == if added.Failure? then Codec.Progress(v, Some(added.error)) else Codec.Progress(added.value, None);
      var o := AddRelationship(parts[0], other, reg);
      assert TargetName(other) == Some(parts[1]);
      return if o.Fail? then Some(o.error) else None;
    }

    /** Drops every relationship whose target is named `n`; the others keep their order. */
    method DropRelationshipsTo(n: string)
      modifies this`relationships
      ensures relationships == old(Kept(relationships, n))
      ensures old(Valid()) ==> Valid()
    {
      KeptValues(relationships, n);
      relationships := Kept(relationships, n);
    }
  }

  /** The relationships of `rels` whose target is not named `n`, in order. */
  function Kept(rels: seq<Relationship>, n: string): (kept: seq<Relationship>)
    reads (set r | r in rels)`target, Targets(rels)`name
    ensures forall x | x in kept :: x in rels && x.target.name != n
  {
    if rels == [] then []
    else
      var init, r := rels[..|rels| - 1], rels[|rels| - 1];
      assert forall x | x in init :: x in rels;
      assert Targets(init) <= Targets(rels);
      var k := Kept(init, n);
      if r.target.name == n then k else k + [r]
  }

  /** Seen as values, keeping what does not target `n` is DropTargeting; it keeps distinctness. */
  lemma {:induction false} KeptValues(rels: seq<Relationship>, n: string)
    ensures RelValues(Kept(rels, n)) == DropTargeting(RelValues(rels), n)
    ensures Distinct(rels) ==> Distinct(Kept(rels, n))
  {
    if rels != [] {
      var init, r := rels[..|rels| - 1], rels[|rels| - 1];
      var k := Kept(init, n);
      KeptValues(init, n);
      DropTargetingSnoc(RelValues(init), RelValue(r.name, r.target.name), n);
      if r.target.name != n {
        RelValuesAppend(k, r);
        if Distinct(rels) {
          DistinctAppend(k, r);
        }
      }
    }
  }

  /** What holds of every entity but the one at `k` holds of every entity left after removing it. */
  lemma NoneTargetName(es: seq<Entity>, k: nat, n: string)
    requires k < |es|
    requires forall j, r | 0 <= j < |es| && j != k && r in es[j].relationships :: r.target.name != n
    ensures forall x, r | x in es[..k] + es[k + 1..] && r in x.relationships :: r.target.name != n
  {
    forall x, r | x in es[..k] + es[k + 1..] && r in x.relationships
      ensures r.target.name != n
    {
      var rest := es[..k] + es[k + 1..];
      var j :| 0 <= j < |rest| && rest[j] == x;
      var j' := if j < k then j else j + 1;
      assert x == es[j'] && j' != k;
    }
  }

  /** The registry of entities, compared by name, and the log of what it reported. */
  class EntityManager {
    var entities: seq<Entity>
    var events: seq<Event>

    constructor ()
      ensures entities == [] && events == [] && Valid()
    {
      entities := [];
      events := [];
    }

    function RegisteredNames(): seq<string>
      reads this`entities, (set e | e in entities)`name
    {
      NamesOf(entities)
    }

    /** The registry never holds two entities with the same name. */
    predicate Valid()
      reads this`entities, (set e | e in entities)`name
    {
      forall i, j | 0 <= i < j < |entities| :: entities[i].name != entities[j].name
    }

    /** `containsEntity(e)`: some registered entity equals `e`, that is, has its name. */
    predicate ContainsEntity(e: Entity?)
      reads this`entities, (set x | x in entities)`name, e
    {
      e != null && e.name in RegisteredNames()
    }

    /** `containsEntity(name)`: some registered entity has that name. */
    predicate ContainsName(name: string)
      reads this`entities, (set x | x in entities)`name
    {
      name in RegisteredNames()
    }

    /** Membership is by name: `containsEntity` holds exactly when a registered entity equals `e`. */
    lemma ContainsMeansEquals(e: Entity?)
      ensures ContainsEntity(e) <==> exists i | 0 <= i < |entities| :: entities[i].Equals(e)
    {
      if ContainsEntity(e) {
        var i :| 0 <= i < |RegisteredNames()| && RegisteredNames()[i] == e.name;
        assert entities[i].Equals(e);
      } else {
        forall i | 0 <= i < |entities|
          ensures !entities[i].Equals(e)
        {
          assert RegisteredNames()[i] == entities[i].name;
        }
      }
    }

    /** `getEntityByName`: the first registered entity with that name, or null. */
    function GetEntityByName(name: string): (r: Entity?)
      reads this`entities, (set x | x in entities)`name
      ensures r == null <==> name !in RegisteredNames()
      ensures r != null ==> r in entities && r.name == name
    {
      match IndexOf(RegisteredNames(), name)
      case None => null
      case Some(i) => entities[i]
    }

    /**
     * `registerEntity`: an entity whose name is taken is refused and the list is left as it
     * was; otherwise the entity is appended.
     */
    method RegisterEntity(e: Entity) returns (added: bool)
      requires Valid()
      modifies this`entities
      ensures Valid()
      ensures added <==> e.name !in old(RegisteredNames())
      ensures entities == if added then old(entities) + [e] else old(entities)
    {
      if ContainsEntity(e) {
        return false;
      }
      ghost var names := RegisteredNames();
      entities := entities + [e];
      assert forall i | 0 <= i < |names| :: entities[i].name == names[i];
      return true;
    }

    /** `clearRegistry`: no entity is left; what was reported stays reported. */
    method ClearRegistry()
      modifies this`entities
      ensures entities == [] && Valid()
    {
      entities := [];
    }

    /**
     * `updateEntityName`: the new name is validated with the role "Entity", then refused when
     * any registered entity has it; otherwise the entity is renamed and the change reported.
     */
    method UpdateEntityName(e: Entity, newName: string) returns (o: Outcome<string>)
      requires Valid()
      modifies e`name, this`events
      ensures Valid()
      ensures Names.IsIdentifier(newName) ==>
                o == if newName in old(RegisteredNames()) then Fail("Entity already registered") else Pass
      ensures !Names.IsIdentifier(newName) ==> o == Names.ValidateName(newName, "Entity")
      ensures e.name == if o.Pass? then newName else old(e.name)
      ensures events == old(events) + if o.Pass? then [Updated(e, NameChanged(old(e.name), newName))] else []
    {
      o := Names.ValidateName(newName, "Entity");
      if o.Fail? {
        return;
      }
      if ContainsName(newName) {
        return Fail("Entity already registered");
      }
      ghost var before := RegisteredNames();
      var oldName := e.name;
      e.name := newName;
      events := events + [Updated(e, NameChanged(oldName, newName))];
      assert forall i | 0 <= i < |entities| :: entities[i].name == if entities[i] == e then newName else before[i];
    }

    /**
     * `removeEntity`: the registered entity with `e`'s name leaves the registry, every entity
     * left in it drops its relationships to that name, and the removal is reported. When no
     * registered entity has that name, nothing changes.
     */
    method RemoveEntity(e: Entity) returns (removed: bool)
      requires Valid()
      modifies this`entities, this`events, (set x | x in entities)`relationships
      ensures Valid()
      ensures removed <==> old(ContainsEntity(e))
      ensures !removed ==> entities == old(entities) && events == old(events)
                           && forall x | x in entities :: x.relationships == old(x.relationships)
      ensures removed ==>
                var k := IndexOf(old(RegisteredNames()), e.name).value;
                && entities == old(entities)[..k] + old(entities)[k + 1..]
                && events == old(events) + [Removed(old(entities)[k])]
                && forall j | 0 <= j < |old(entities)| ::
                     old(entities)[j].relationships == if j == k then old(entities[j].relationships)
                                                       else old(Kept(entities[j].relationships, e.name))
      ensures removed ==> forall x, r | x in entities && r in x.relationships :: r.target.name != e.name
    {
      var n := e.name;
      ghost var names := RegisteredNames();
      var k := 0;
      while k < |entities| && entities[k].name != n
        invariant 0 <= k <= |entities|
        invariant forall j | 0 <= j < k :: names[j] != n
      {
        k := k + 1;
      }
      if k == |entities| {
        return false;
      }
      IndexOfIs(names, n, k);
      RemoveAt(k);
      return true;
    }

    /**
     * The entity at `k` leaves the registry, every other one drops its relationships to that
     * entity's name, and the removal is reported.
     */
    method RemoveAt(k: nat)
      requires Valid() && k < |entities|
      modifies this`entities, this`events, (set x | x in entities)`relationships
      ensures Valid()
      ensures entities == old(entities)[..k] + old(entities)[k + 1..]
      ensures events == old(events) + [Removed(old(entities)[k])]
      ensures forall j | 0 <= j < |old(entities)| ::
                old(entities)[j].relationships == if j == k then old(entities[j].relationships)
                                                  else old(Kept(entities[j].relationships, entities[k].name))
      ensures forall x, r | x in entities && r in x.relationships :: r.target.name != old(entities[k].name)
    {
      var gone := entities[k];
      StripTargeting(gone.name, k);
      NoneTargetName(entities, k, gone.name);
      DropEntityAt(k);
      events := events + [Removed(gone)];
    }

    /** The entity at `k` leaves the registry; the others keep their order. */
    method DropEntityAt(k: nat)
      requires Valid() && k < |entities|
      modifies this`entities
      ensures Valid()
      ensures entities == old(entities)[..k] + old(entities)[k + 1..]
    {
      ghost var before := entities;
      entities := entities[..k] + entities[k + 1..];
      forall i, j | 0 <= i < j < |entities|
        ensures entities[i].name != entities[j].name
      {
        var i', j' := if i < k then i else i + 1, if j < k then j else j + 1;
        assert entities[i] == before[i'] && entities[j] == before[j'];
      }
    }

    /** Every registered entity but the one at `skip` drops its relationships to entity `n`. */
    method StripTargeting(n: string, skip: nat)
      requires Valid()
      modifies (set x | x in entities)`relationships
      ensures forall j | 0 <= j < |entities| ::
                entities[j].relationships == if j == skip then old(entities[j].relationships)
                                             else old(Kept(entities[j].relationships, n))
      ensures forall j, r | 0 <= j < |entities| && j != skip && r in entities[j].relationships :: r.target.name != n
    {
      ghost var es := entities;
      assert forall a, b | 0 <= a < b < |es| :: es[a] != es[b];
      var i := 0;
      while i < |entities|
        invariant 0 <= i <= |entities| && entities == es
        invariant forall j | 0 <= j < |es| ::
                    es[j].relationships == if j < i && j != skip then old(Kept(es[j].relationships, n)) else old(es[j].relationships)
      {
        if i != skip {
          var x := entities[i];
          assert x.relationships == old(x.relationships);
          assert forall r | r in x.relationships :: r.target == old(r.target);
          assert Targets(x.relationships) == old(Targets(x.relationships));
          assert Kept(x.relationships, n) == old(Kept(x.relationships, n));
          assert forall j | 0 <= j < |es| && j != i :: es[j] != x;
          x.DropRelationshipsTo(n);
        }
        i := i + 1;
      }
      forall j, r | 0 <= j < |es| && j != skip && r in es[j].relationships
        ensures r.target.name != n
      {
        assert r in old(Kept(es[j].relationships, n));
      }
    }

    /** `entityClearedRelationships`: reports that `e` lost its relationships. */
    method EntityClearedRelationships(e: Entity)
      modifies this`events
      ensures events == old(events) + [Updated(e, RelationshipsCleared)]
    {
      events := events + [Updated(e, RelationshipsCleared)];
    }
  }
}
