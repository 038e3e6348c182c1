/**
 * The identifier rules shared by entity, attribute and relationship names: not empty, only
 * word characters, not starting with a digit, checked in that order with the role of the
 * name ("Entity", "Attribute", "Relationship") written into the message.
 */
module Names {
  import opened Wrappers

  /** A character of the regular-expression class `\w`: `[A-Za-z0-9_]`. */
  predicate IsWordChar(c: char)
  {
    'a' <= c <= 'z' || 'A' <= c <= 'Z' || '0' <= c <= '9' || c == '_'
  }

  /** A character of `\d`: `[0-9]`. */
  predicate IsDigit(c: char)
  {
    '0' <= c <= '9'
  }

  /** Every character of `s` is a word character. */
  predicate AllWordChars(s: string)
  {
    forall i | 0 <= i < |s| :: IsWordChar(s[i])
  }

  /** The identifier grammar `[A-Za-z_][A-Za-z0-9_]*`, written out independently of the checks. */
  predicate IsIdentifier(s: string)
  {
    && |s| > 0
    && ('a' <= s[0] <= 'z' || 'A' <= s[0] <= 'Z' || s[0] == '_')
    && AllWordChars(s)
  }

  /**
   * Checks `name` for the given role: the first failing rule gives the message. The result
   * passes exactly for identifiers, and each rule fails only when the earlier ones passed.
   */
  function ValidateName(name: string, role: string): (o: Outcome<string>)
    ensures o.Pass? <==> IsIdentifier(name)
    ensures name == [] ==> o == Fail(role + " name not specified")
    ensures name != [] && !AllWordChars(name) ==> o == Fail("Invalid characters in " + role + " name")
    ensures name != [] && AllWordChars(name) && IsDigit(name[0]) ==>
              o == Fail(role + " name can't start with a number")
  {
    if name == [] then Fail(role + " name not specified")
    else if !AllWordChars(name) then Fail("Invalid characters in " + role + " name")
    else if IsDigit(name[0]) then Fail(role + " name can't start with a number")
    else Pass
  }

  /** Identifiers contain no character that the entity text format uses as a delimiter or trims. */
  lemma IdentifierIsPlain(s: string)
    requires AllWordChars(s)
    ensures '$' !in s && '#' !in s && ':' !in s
    ensures forall i | 0 <= i < |s| :: s[i] > ' '
  {
    forall c | c in s
      ensures c != '$' && c != '#' && c != ':'
    {
      var i :| 0 <= i < |s| && s[i] == c;
      assert IsWordChar(s[i]);
    }
  }

  /** Word characters joined are word characters. */
  lemma WordCharsConcat(x: string, y: string)
    requires AllWordChars(x) && AllWordChars(y)
    ensures AllWordChars(x + y)
  {
    forall i | 0 <= i < |x + y|
      ensures IsWordChar((x + y)[i])
    {
      if i < |x| {
        assert (x + y)[i] == x[i];
      } else {
        assert (x + y)[i] == y[i - |x|];
      }
    }
  }
}
