/** Stage b04: the contract-checked abstract name.  Its component
    primitives (`getNoComponents`, `getComponent`, `append`) are abstract
    in the source; here they act on a component list `components`, which
    stands for whatever a concrete subclass stores.  The base class adds the
    constructor checks, `asString` built from those primitives, equality,
    a length-based hash and an in-place `concat` with a count
    postcondition. */
module NamesB04 {
  import opened Common
  import opened Codec
  import opened Contract
  import Utf16

  class Name {
    /** Fixed at construction, after the constructor's checks: a string of
        JavaScript length 1 is one character of the Basic Multilingual
        Plane. */
    const delimiter: Utf16.PlaneChar
    var components: seq<string>

    constructor (components: seq<string>, delimiter: Utf16.PlaneChar)
      ensures this.components == components && this.delimiter == delimiter
    {
      this.components := components;
      this.delimiter := delimiter;
    }

    /** The `AbstractName` constructor, run on behalf of a subclass holding
        `components`: IllegalArgument for a null delimiter, InvalidState
        unless the delimiter's JavaScript length is 1 (one character of the
        Basic Multilingual Plane). */
    static method New(components: seq<string>, delimiter: Arg<string>) returns (r: Result<Name>)
      ensures delimiter.Null? ==> r == Err(IllegalArgument)
      ensures delimiter.Given? && Utf16.Length(delimiter.value) != 1 ==> r == Err(InvalidState)
      ensures delimiter.Given? && |delimiter.value| == 1 &&
              (delimiter.value[0] as int) >= Utf16.FirstSupplementary ==>
                r == Err(InvalidState)
      ensures r.Ok? <==> CheckedDelimiter(delimiter).Ok?
      ensures r.Ok? ==> fresh(r.value) && r.value.components == components &&
                        r.value.delimiter == CheckedDelimiter(delimiter).value
    {
      var d := CheckedDelimiter(delimiter);
      if d.Err? {
        return Err(d.error);
      }
      var n := new Name(components, d.value);
      r := Ok(n);
    }

    /** The canonical form: the serialization under the default delimiter. */
    function DataString(): string
      reads this
    {
      Serialize(components, DefaultDelimiter)
    }

    // --- the primitives a subclass supplies ---

    method GetNoComponents() returns (n: nat)
      ensures n == |components|
    {
      n := |components|;
    }

    method GetComponent(i: int) returns (r: Result<string>)
      ensures 0 <= i < |components| ==> r == Ok(components[i])
      ensures !(0 <= i < |components|) ==> r == Err(IllegalArgument)
    {
      var check := AssertValidIndex(i, |components|);
      if check.Fail? {
        return Err(check.error);
      }
      r := Ok(components[i]);
    }

    method Append(c: string)
      modifies this
      ensures components == old(components) + [c]
    {
      components := components + [c];
    }

    // --- the concrete methods of the base class ---

    /** `asString(delimiter?)`: the components are collected by index,
        then escaped and joined. */
    method AsString(d: Arg<char>) returns (r: Result<string>)
      ensures d.Null? ==> r == Err(IllegalArgument)
      ensures d.Omitted? ==> r == Ok(Serialize(components, delimiter))
      ensures d.Given? ==> r == Ok(Serialize(components, d.value))
    {
      if d.Null? {
        return Err(IllegalArgument);
      }
      var collected: seq<string> := [];
      var count := GetNoComponents();
      var i := 0;
      while i < count
        invariant 0 <= i <= count == |components|
        invariant collected == components[..i]
      {
        var c := GetComponent(i);
        collected := collected + [c.value];
        i := i + 1;
      }
      assert components[..i] == components;
      var sep := if d.Given? then d.value else delimiter;
      r := Ok(Serialize(collected, sep));
    }

    /** `asDataString()` */
    method AsDataString() returns (s: string)
      ensures s == DataString()
    {
      var r := AsString(Given(DefaultDelimiter));
      s := r.value;
    }

    /** `isEqual(other)`: IllegalArgument for a null `other`, otherwise
        equality of the data strings. */
    method IsEqual(other: Name?) returns (r: Result<bool>)
      ensures other == null ==> r == Err(IllegalArgument)
      ensures other != null ==> r == Ok(DataString() == other.DataString())
      ensures other != null && components == other.components ==> r == Ok(true)
    {
      if other == null {
        return Err(IllegalArgument);
      }
      var mine := AsDataString();
      var theirs := other.AsDataString();
      r := Ok(mine == theirs);
    }

    /** `getHashCode()`: the JavaScript length of the data string, which
        counts a character above the Basic Multilingual Plane twice. */
    method GetHashCode() returns (h: nat)
      ensures h == Utf16.Length(DataString())
      ensures h >= |DataString()|
      ensures h == |DataString()| <==> Utf16.InPlane(DataString())
    {
      var s := AsDataString();
      h := Utf16.Length(s);
      Utf16.LengthIsSize(s);
    }

    /** `isEmpty()`: no components. */
    method IsEmpty() returns (b: bool)
      ensures b <==> components == []
    {
      var n := GetNoComponents();
      b := n == 0;
    }

    /** `getDelimiterCharacter()`: always one character. */
    method GetDelimiterCharacter() returns (s: string)
      ensures |s| == 1 && s[0] == delimiter
    {
      s := [delimiter];
    }

    /** `concat(other)`: appends `other`'s components in place, in order,
        then checks the count postcondition (MethodFailed) and the class
        invariant (InvalidState).  `other` may be the receiver only when it
        is empty: otherwise the loop bound grows with every append and the
        source never ends. */
    method Concat(other: Name?) returns (r: Outcome)
      requires other == this ==> components == []
      modifies this
      ensures other == null ==> r == Fail(IllegalArgument) && components == old(components)
      ensures other != null ==> r == Pass && components == old(components) + other.components
      ensures |components| == old(|components|) + (if other == null then 0 else |other.components|)
    {
      var initialCount := GetNoComponents();
      if other == null {
        return Fail(IllegalArgument);
      }
      var count := other.GetNoComponents();
      var i := 0;
      while i < count
        invariant 0 <= i <= count == |other.components|
        invariant components == old(components) + other.components[..i]
        invariant other == this ==> count == 0
      {
        var c := other.GetComponent(i);
        assert other.components[..i + 1] == other.components[..i] + [c.value];
        Append(c.value);
        i := i + 1;
      }
      assert other.components[..i] == other.components;
      var newCount := GetNoComponents();
      var otherCount := other.GetNoComponents();
      if newCount != initialCount + otherCount {
        return Fail(MethodFailed);
      }
      match CheckClassInvariant([delimiter])
      case Fail(e) => return Fail(e);
      case Pass => r := Pass;
    }
  }
}
