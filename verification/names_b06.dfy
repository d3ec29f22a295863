/** Stage b06: immutable, contract-checked names.  `AbstractName` builds the
    whole contract on the two primitives `getComponentList` and
    `setComponentList`; every mutator clones the receiver, edits the
    clone's list, stores it back, checks the component count and returns
    the clone.  The subclass (`StringName` or `StringArrayName`) is the
    `storage` tag of the one class `Name`. */
module NamesB06 {
  import opened Common
  import opened Codec
  import opened HashCode
  import opened JsArray
  import opened Contract
  import opened Representation
  import Utf16

  class Name {
    /** Fixed at construction; the class invariant (one character) is
        checked by `CheckedDelimiter` before a name exists. */
    const delimiter: Utf16.PlaneChar
    /** Written only by `SetComponentList`, and only on a fresh clone. */
    var storage: Storage

    constructor (storage: Storage, delimiter: Utf16.PlaneChar)
      ensures this.storage == storage && this.delimiter == delimiter
    {
      this.storage := storage;
      this.delimiter := delimiter;
    }

    /** `new StringName(source, delimiter?)` */
    static method NewStringName(source: string, delimiter: Arg<string>) returns (r: Result<Name>)
      ensures CheckedDelimiter(delimiter).Err? ==> r == Err(CheckedDelimiter(delimiter).error)
      ensures CheckedDelimiter(delimiter).Ok? ==>
                r.Ok? && fresh(r.value) && r.value.storage == StringBacked(source) &&
                r.value.delimiter == CheckedDelimiter(delimiter).value
    {
      var d := CheckedDelimiter(delimiter);
      if d.Err? {
        return Err(d.error);
      }
      var n := new Name(StringBacked(source), d.value);
      r := Ok(n);
    }

    /** `new StringArrayName(source, delimiter?)` */
    static method NewStringArrayName(source: seq<string>, delimiter: Arg<string>) returns (r: Result<Name>)
      ensures CheckedDelimiter(delimiter).Err? ==> r == Err(CheckedDelimiter(delimiter).error)
      ensures CheckedDelimiter(delimiter).Ok? ==>
                r.Ok? && fresh(r.value) && r.value.storage == ArrayBacked(source) &&
                r.value.Components() == source &&
                r.value.delimiter == CheckedDelimiter(delimiter).value
    {
      var d := CheckedDelimiter(delimiter);
      if d.Err? {
        return Err(d.error);
      }
      var n := new Name(ArrayBacked(source), d.value);
      r := Ok(n);
    }

    /** The component list the name stands for. */
    function Components(): seq<string>
      reads this
    {
      View(storage, delimiter)
    }

    /** The canonical form: the serialization under the default delimiter. */
    function DataString(): string
      reads this
    {
      Serialize(Components(), DefaultDelimiter)
    }

    /** Whether storing `cs` loses it: a string-backed name cannot hold
        the single empty component. */
    predicate Loses(cs: seq<string>)
      reads this
    {
      storage.StringBacked? && cs == [""]
    }

    // --- the two primitives and clone ---

    /** `getComponentList()`: the parser for `StringName`, the array for
        `StringArrayName`. */
    method GetComponentList() returns (cs: seq<string>)
      ensures cs == Components()
    {
      match storage
      case StringBacked(name) =>
        cs := ParseComponents(name, delimiter);
      case ArrayBacked(components) =>
        cs := components;
    }

    /** `setComponentList(cs)`: `StringName` stores the escaped join under
        its own delimiter, `StringArrayName` stores the list. */
    method SetComponentList(cs: seq<string>)
      modifies this
      ensures storage == Store(old(storage), cs, delimiter)
      ensures delimiter != EscapeChar ==>
                Components() == if old(Loses(cs)) then [] else cs
    {
      if storage.StringBacked? {
        storage := StringBacked(Serialize(cs, delimiter));
      } else {
        storage := ArrayBacked(cs);
      }
      if delimiter != EscapeChar {
        StoreThenView(old(storage), cs, delimiter);
      }
    }

    /** `clone()`: a new name with the same stored string, or a copy of
        the array, and the same delimiter. */
    method Clone() returns (n: Name)
      ensures fresh(n)
      ensures n.storage == storage && n.delimiter == delimiter
      ensures n.Components() == Components() && n.DataString() == DataString()
    {
      n := new Name(storage, delimiter);
    }

    // --- queries ---

    /** `asString(delimiter?)`: an omitted delimiter means the name's own,
        a null one raises IllegalArgument. */
    method AsString(d: Arg<char>) returns (r: Result<string>)
      ensures d.Null? ==> r == Err(IllegalArgument)
      ensures d.Omitted? ==> r == Ok(Serialize(Components(), delimiter))
      ensures d.Given? ==> r == Ok(Serialize(Components(), d.value))
      ensures r.Ok? && delimiter != EscapeChar && d.Omitted? && Components() != [""] ==>
                Parse(r.value, delimiter) == Components()
    {
      if d.Null? {
        return Err(IllegalArgument);
      }
      var sep := if d.Given? then d.value else delimiter;
      var components := GetComponentList();
      r := Ok(Serialize(components, sep));
      if d.Omitted? && delimiter != EscapeChar {
        RoundTrip(components, delimiter);
      }
    }

    /** `asDataString()` */
    method AsDataString() returns (s: string)
      ensures s == DataString()
    {
      var r := AsString(Given(DefaultDelimiter));
      s := r.value;
    }

    /** `getDelimiterCharacter()`: always one character. */
    method GetDelimiterCharacter() returns (s: string)
      ensures |s| == 1 && s[0] == delimiter
    {
      s := [delimiter];
    }

    /** `isEqual(other)`: a null `other` raises IllegalArgument; otherwise
        the names are equal iff their data strings are. */
    method IsEqual(other: Name?) returns (r: Result<bool>)
      ensures other == null ==> r == Err(IllegalArgument)
      ensures other != null ==> r == Ok(DataString() == other.DataString())
      ensures other != null ==> (r == Ok(true) <==>
                Components() == other.Components() ||
                {Components(), other.Components()} == {[], [""]})
    {
      if other == null {
        return Err(IllegalArgument);
      }
      var mine := AsDataString();
      var theirs := other.AsDataString();
      r := Ok(mine == theirs);
      SerializeInjective(Components(), other.Components(), DefaultDelimiter);
    }

    /** `getHashCode()`: the hash of the data string only. */
    method GetHashCode() returns (h: int)
      ensures h == Hash(DataString())
      ensures -TwoTo31 <= h < TwoTo31
    {
      var s := AsDataString();
      h := StringHash(s);
    }

    /** `isEmpty()` */
    method IsEmpty() returns (b: bool)
      ensures b <==> Components() == []
    {
      var cs := GetComponentList();
      b := |cs| == 0;
    }

    /** `getNoComponents()` */
    method GetNoComponents() returns (n: nat)
      ensures n == |Components()|
    {
      var cs := GetComponentList();
      n := |cs|;
    }

    /** `getComponent(i)`: IllegalArgument unless `0 <= i < count`. */
    method GetComponent(i: int) returns (r: Result<string>)
      ensures 0 <= i < |Components()| ==> r == Ok(Components()[i])
      ensures !(0 <= i < |Components()|) ==> r == Err(IllegalArgument)
    {
      var count := GetNoComponents();
      var check := AssertValidIndex(i, count);
      if check.Fail? {
        return Err(check.error);
      }
      var cs := GetComponentList();
      r := Ok(cs[i]);
    }

    // --- immutable mutators ---

    /** `setComponent(i, c)`: a new name with position `i` replaced.  The
        count postcondition fails (MethodFailed) exactly when a
        string-backed name would have to hold `[""]`. */
    method SetComponent(i: int, c: Option<string>) returns (r: Result<Name>)
      ensures unchanged(this)
      ensures !(0 <= i < |Components()|) || c.None? ==> r == Err(IllegalArgument)
      ensures 0 <= i < |Components()| && c.Some? ==>
                var edited := Components()[i := c.value];
                (r.Ok? <==> |View(Store(storage, edited, delimiter), delimiter)| == |Components()|) &&
                (r.Err? ==> r.error == MethodFailed) &&
                (r.Ok? ==> fresh(r.value) && r.value.delimiter == delimiter &&
                           r.value.storage == Store(storage, edited, delimiter)) &&
                (delimiter != EscapeChar ==>
                   (r.Ok? <==> !Loses(edited)) && (r.Ok? ==> r.value.Components() == edited))
    {
      var initialCount := GetNoComponents();
      var check := AssertValidIndex(i, initialCount);
      if check.Fail? {
        return Err(check.error);
      }
      check := AssertValidComponent(c);
      if check.Fail? {
        return Err(check.error);
      }
      var clone := Clone();
      var components := clone.GetComponentList();
      components := components[i := c.value];
      clone.SetComponentList(components);
      var newCount := clone.GetNoComponents();
      if newCount != initialCount {
        return Err(MethodFailed);
      }
      r := Ok(clone);
    }

    /** `insert(i, c)`: a new name with `c` at position `i`; count + 1. */
    method Insert(i: int, c: Option<string>) returns (r: Result<Name>)
      ensures unchanged(this)
      ensures !(0 <= i <= |Components()|) || c.None? ==> r == Err(IllegalArgument)
      ensures 0 <= i <= |Components()| && c.Some? ==>
                var edited := Components()[..i] + [c.value] + Components()[i..];
                (r.Ok? <==> |View(Store(storage, edited, delimiter), delimiter)| == |Components()| + 1) &&
                (r.Err? ==> r.error == MethodFailed) &&
                (r.Ok? ==> fresh(r.value) && r.value.delimiter == delimiter &&
                           r.value.storage == Store(storage, edited, delimiter)) &&
                (delimiter != EscapeChar ==>
                   (r.Ok? <==> !Loses(edited)) && (r.Ok? ==> r.value.Components() == edited))
    {
      var initialCount := GetNoComponents();
      var check := AssertValidInsertionIndex(i, initialCount);
      if check.Fail? {
        return Err(check.error);
      }
      check := AssertValidComponent(c);
      if check.Fail? {
        return Err(check.error);
      }
      var clone := Clone();
      var components := clone.GetComponentList();
      SpliceInsert(components, i, c.value);
      components := Splice(components, i, 0, [c.value]);
      clone.SetComponentList(components);
      var newCount := clone.GetNoComponents();
      if newCount != initialCount + 1 {
        return Err(MethodFailed);
      }
      r := Ok(clone);
    }

    /** `append(c)`: exactly `insert(getNoComponents(), c)`. */
    method Append(c: Option<string>) returns (r: Result<Name>)
      ensures unchanged(this)
      ensures c.None? ==> r == Err(IllegalArgument)
      ensures c.Some? ==>
                var edited := Components() + [c.value];
                (r.Ok? <==> |View(Store(storage, edited, delimiter), delimiter)| == |Components()| + 1) &&
                (r.Err? ==> r.error == MethodFailed) &&
                (r.Ok? ==> fresh(r.value) && r.value.delimiter == delimiter &&
                           r.value.storage == Store(storage, edited, delimiter)) &&
                (delimiter != EscapeChar ==>
                   (r.Ok? <==> !Loses(edited)) && (r.Ok? ==> r.value.Components() == edited))
    {
      var count := GetNoComponents();
      r := Insert(count, c);
      if c.Some? {
        assert Components()[..count] + [c.value] + Components()[count..] == Components() + [c.value];
      }
    }

    /** `remove(i)`: a new name without position `i`; count - 1. */
    method Remove(i: int) returns (r: Result<Name>)
      ensures unchanged(this)
      ensures !(0 <= i < |Components()|) ==> r == Err(IllegalArgument)
      ensures 0 <= i < |Components()| ==>
                var edited := Components()[..i] + Components()[i + 1..];
                (r.Ok? <==> |View(Store(storage, edited, delimiter), delimiter)| == |Components()| - 1) &&
                (r.Err? ==> r.error == MethodFailed) &&
                (r.Ok? ==> fresh(r.value) && r.value.delimiter == delimiter &&
                           r.value.storage == Store(storage, edited, delimiter)) &&
                (delimiter != EscapeChar ==>
                   (r.Ok? <==> !Loses(edited)) && (r.Ok? ==> r.value.Components() == edited))
    {
      var initialCount := GetNoComponents();
      var check := AssertValidIndex(i, initialCount);
      if check.Fail? {
        return Err(check.error);
      }
      var clone := Clone();
      var components := clone.GetComponentList();
      SpliceRemove(components, i);
      components := Splice(components, i, 1, []);
      clone.SetComponentList(components);
      var newCount := clone.GetNoComponents();
      if newCount != initialCount - 1 {
        return Err(MethodFailed);
      }
      r := Ok(clone);
    }

    /** `concat(other)`: a clone of the receiver with `other`'s components
        appended in order; the receiver's delimiter is kept and there is no
        count postcondition.  `other` may be the receiver itself. */
    method Concat(other: Name?) returns (r: Result<Name>)
      ensures unchanged(this) && (other != null ==> unchanged(other))
      ensures other == null ==> r == Err(IllegalArgument)
      ensures other != null ==>
                var joined := Components() + other.Components();
                r.Ok? && fresh(r.value) && r.value.delimiter == delimiter &&
                r.value.storage == Store(storage, joined, delimiter) &&
                (delimiter != EscapeChar ==>
                   r.value.Components() == if Loses(joined) then [] else joined)
    {
      if other == null {
        return Err(IllegalArgument);
      }
      var clone := Clone();
      var components := clone.GetComponentList();
      var count := other.GetNoComponents();
      var i := 0;
      while i < count
        invariant 0 <= i <= count == |other.Components()|
        invariant components == Components() + other.Components()[..i]
        invariant clone.storage == storage
      {
        var c := other.GetComponent(i);
        assert other.Components()[..i + 1] == other.Components()[..i] + [c.value];
        components := components + [c.value];
        i := i + 1;
      }
      assert other.Components()[..i] == other.Components();
      assert components == Components() + other.Components();
      clone.SetComponentList(components);
      r := Ok(clone);
    }
  }

  // --- properties relating several names ---

  /** Names with equal data strings are `isEqual` and have equal hash
      codes; in particular a string-backed and an array-backed name with
      the same components do. */
  lemma EqualNamesHashEqually(a: Name, b: Name)
    requires a.delimiter != EscapeChar && b.delimiter != EscapeChar
    requires a.storage.StringBacked? && b.storage.ArrayBacked?
    requires a.storage.name == Serialize(b.storage.components, a.delimiter)
    ensures a.DataString() == b.DataString()
    ensures Hash(a.DataString()) == Hash(b.DataString())
  {
    RepresentationsAgree(b.storage.components, a.delimiter);
  }

  // --- scenarios ---

  /** `[""]` cannot be held by a string-backed name: inserting the empty
      component into the empty `StringName` fails its count postcondition,
      while the array-backed name takes it and is then `isEqual` to the
      empty `StringName` although their counts differ. */
  method EmptyComponentScenario()
    returns (inserted: Result<Name>, arrayCount: nat, stringCount: nat, equal: Result<bool>)
    ensures inserted == Err(MethodFailed)
    ensures arrayCount == 1 && stringCount == 0
    ensures equal == Ok(true)
  {
    var sMade := Name.NewStringName("", Omitted);
    var s := sMade.value;
    inserted := s.Insert(0, Some(""));
    var aMade := Name.NewStringArrayName([""], Omitted);
    var a := aMade.value;
    arrayCount := a.GetNoComponents();
    stringCount := s.GetNoComponents();
    SerializeEmpty([""], DefaultDelimiter);
    equal := a.IsEqual(s);
  }

  /** The sample names of the repository's tests, written out. */
  lemma SampleOssCsFau()
    ensures Serialize(["oss", "cs", "fau"], DefaultDelimiter) == "oss.cs.fau"
  {
    PlainSerialize(["oss", "cs", "fau"], DefaultDelimiter);
    assert ["oss", "cs", "fau"][1..] == ["cs", "fau"];
    assert ["cs", "fau"][1..] == ["fau"];
  }

  lemma SampleOssFauDe()
    ensures Serialize(["oss", "fau", "de"], DefaultDelimiter) == "oss.fau.de"
  {
    PlainSerialize(["oss", "fau", "de"], DefaultDelimiter);
    assert ["oss", "fau", "de"][1..] == ["fau", "de"];
    assert ["fau", "de"][1..] == ["de"];
  }

  lemma SampleCsFauDe()
    ensures Serialize(["cs", "fau", "de"], DefaultDelimiter) == "cs.fau.de"
  {
    PlainSerialize(["cs", "fau", "de"], DefaultDelimiter);
    assert ["cs", "fau", "de"][1..] == ["fau", "de"];
    assert ["fau", "de"][1..] == ["de"];
  }

  lemma SampleOssCsFauDe()
    ensures Serialize(["oss", "cs", "fau", "de"], DefaultDelimiter) == "oss.cs.fau.de"
  {
    SerializeCons(["oss", "cs", "fau", "de"], DefaultDelimiter);
    assert ["oss", "cs", "fau", "de"][1..] == ["cs", "fau", "de"];
    SampleCsFauDe();
    assert Escape("oss", DefaultDelimiter) == "oss";
  }

  /** Appending to a string-backed name returns a new name; the receiver
      keeps its data string. */
  method AppendScenario() returns (before: string, after: string, distinct: bool)
    ensures before == "oss.cs.fau" && after == "oss.cs.fau.de" && distinct
  {
    SampleOssCsFau();
    SampleOssCsFauDe();
    RoundTrip(["oss", "cs", "fau"], DefaultDelimiter);
    var originalMade := Name.NewStringName("oss.cs.fau", Omitted);
    var original := originalMade.value;
    var modified := original.Append(Some("de"));
    assert ["oss", "cs", "fau"] + ["de"] == ["oss", "cs", "fau", "de"];
    before := original.AsDataString();
    after := modified.value.AsDataString();
    distinct := original != modified.value;
  }

  /** Inserting into an array-backed name returns a new name. */
  method InsertScenario() returns (before: string, after: string)
    ensures before == "oss.fau.de" && after == "oss.cs.fau.de"
  {
    SampleOssFauDe();
    SampleOssCsFauDe();
    var originalMade := Name.NewStringArrayName(["oss", "fau", "de"], Omitted);
    var original := originalMade.value;
    var modified := original.Insert(1, Some("cs"));
    assert ["oss", "fau", "de"][..1] + ["cs"] + ["oss", "fau", "de"][1..] == ["oss", "cs", "fau", "de"];
    before := original.AsDataString();
    after := modified.value.AsDataString();
  }

  /** Removing from a string-backed name returns a new name. */
  method RemoveScenario() returns (before: string, after: string)
    ensures before == "oss.cs.fau.de" && after == "cs.fau.de"
  {
    SampleOssCsFauDe();
    SampleCsFauDe();
    RoundTrip(["oss", "cs", "fau", "de"], DefaultDelimiter);
    var originalMade := Name.NewStringName("oss.cs.fau.de", Omitted);
    var original := originalMade.value;
    var modified := original.Remove(0);
    assert ["oss", "cs", "fau", "de"][..0] + ["oss", "cs", "fau", "de"][1..] == ["cs", "fau", "de"];
    before := original.AsDataString();
    after := modified.value.AsDataString();
  }

  /** A string-backed and an array-backed name with the same components
      are equal and hash equally. */
  method EqualityScenario() returns (equal: Result<bool>, h1: int, h2: int)
    ensures equal == Ok(true) && h1 == h2
  {
    SampleOssCsFauDe();
    RoundTrip(["oss", "cs", "fau", "de"], DefaultDelimiter);
    var n1Made := Name.NewStringName("oss.cs.fau.de", Omitted);
    var n1 := n1Made.value;
    var n2Made := Name.NewStringArrayName(["oss", "cs", "fau", "de"], Omitted);
    var n2 := n2Made.value;
    equal := n1.IsEqual(n2);
    h1 := n1.GetHashCode();
    h2 := n2.GetHashCode();
  }

  /** On a name with no components `remove(0)` is refused, while
      `insert(0, "x")` gives the one-component name `x`. */
  method EmptyNameScenario() returns (removed: Result<Name>, inserted: Result<Name>)
    ensures removed == Err(IllegalArgument)
    ensures inserted.Ok? && inserted.value.Components() == ["x"]
  {
    var nMade := Name.NewStringArrayName([], Omitted);
    var n := nMade.value;
    removed := n.Remove(0);
    inserted := n.Insert(0, Some("x"));
  }
}
