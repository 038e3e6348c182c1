/**
 * An attribute of an entity: a mutable holder of a name, a type and the primary-key flag,
 * whose name is validated on construction and on rename.
 */
module Attributes {
  import opened Wrappers
  import opened AttributeTypes
  import opened EntitySpec
  import Names

  class Attribute {
    var name: string
    var attrType: AttributeType
    var isPrimaryKey: bool

    /** The attribute's current state as a value. */
    function View(): AttrValue
      reads this
    {
      AttrValue(name, attrType, isPrimaryKey)
    }

    /** Stores a name already validated; not a key to begin with. */
    constructor (name: string, t: AttributeType)
      requires Names.IsIdentifier(name)
      ensures View() == AttrValue(name, t, false)
    {
      this.name := name;
      this.attrType := t;
      this.isPrimaryKey := false;
    }

    /**
     * `new Attribute(name, type)`: validates the name with the role "Attribute" before any
     * field is set, so an invalid name yields no attribute.
     */
    static method Create(name: string, t: AttributeType) returns (r: Result<Attribute, string>)
      ensures r.ToOutcome() == Names.ValidateName(name, "Attribute")
      ensures r.Success? ==> fresh(r.value) && r.value.View() == AttrValue(name, t, false)
    {
      var o := Names.ValidateName(name, "Attribute");
      if o.Fail? {
        return Failure(o.error);
      }
      var a := new Attribute(name, t);
      return Success(a);
    }

    /** `setName`: validates with the role as the code spells it, "Attibute", then assigns. */
    method SetName(newName: string) returns (o: Outcome<string>)
      modifies this`name
      ensures o == Names.ValidateName(newName, "Attibute")
      ensures name == if o.Pass? then newName else old(name)
    {
      o := Names.ValidateName(newName, "Attibute");
      if o.Pass? {
        name := newName;
      }
    }

    /** `setType`: always succeeds and changes only the type. */
    method SetType(t: AttributeType)
      modifies this`attrType
      ensures attrType == t
    {
      attrType := t;
    }

    /** Sets or clears the primary-key flag. */
    method SetPrimaryKey(flag: bool)
      modifies this`isPrimaryKey
      ensures isPrimaryKey == flag
    {
      isPrimaryKey := flag;
    }
  }
}
