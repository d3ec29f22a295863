/** Stage b02: two independent mutable implementations of the `Name`
    interface.  `StringName` keeps the escaped string together with a cached
    component count; `StringArrayName` keeps the raw component list.
    Nothing is validated: indices are unchecked and JavaScript's `splice`
    clamps them. */
module NamesB02 {
  import opened Codec
  import opened JsArray
  import opened Common
  import Utf16

  class StringName {
    /** Set by the constructor and never reassigned.  The source compares
        single UTF-16 code units with it, so only a delimiter of one code
        unit is modelled. */
    const delimiter: Utf16.PlaneChar
    var name: string
    /** The cached count `getNoComponents` and `isEmpty` answer from. */
    var noComponents: int

    /** `new StringName(source, delimiter?)`: a falsy delimiter (omitted or
        empty) keeps the default; the count is taken from the parse. */
    constructor (source: string, delimiter: Option<string>)
      requires delimiter.Some? ==> Utf16.Length(delimiter.value) <= 1
      ensures this.delimiter ==
                if delimiter.Some? && delimiter.value != "" then delimiter.value[0] else DefaultDelimiter
      ensures name == source && noComponents == |Parse(source, this.delimiter)|
      ensures CacheConsistent()
    {
      this.delimiter := if delimiter.Some? && delimiter.value != "" then delimiter.value[0] else DefaultDelimiter;
      name := source;
      new;
      var cs := ParseComponents(source, this.delimiter);
      noComponents := |cs|;
    }

    /** The components the stored string parses into. */
    function Components(): seq<string>
      reads this
    {
      Parse(name, delimiter)
    }

    /** The cached count agrees with the parse. */
    predicate CacheConsistent()
      reads this
    {
      noComponents == |Components()|
    }

    /** The stored string is the one its own components serialize to. */
    predicate Canonical()
      reads this
    {
      Serialize(Components(), delimiter) == name
    }

    /** `getComponents()`: the escape-aware split of the stored string. */
    method GetComponents() returns (cs: seq<string>)
      ensures cs == Components()
    {
      cs := ParseComponents(name, delimiter);
    }

    /** `setComponents(cs)`: stores the escaped join and caches `|cs|`.
        The stored string is canonical afterwards, and it reads back as `cs`
        except for `[""]`, which reads back as `[]` while the cache says 1. */
    method SetComponents(cs: seq<string>)
      modifies this
      ensures name == Serialize(cs, delimiter) && noComponents == |cs|
      ensures delimiter != EscapeChar ==> Canonical()
      ensures delimiter != EscapeChar ==> (CacheConsistent() <==> cs != [""])
      ensures delimiter != EscapeChar && cs != [""] ==> Components() == cs
    {
      name := Serialize(cs, delimiter);
      noComponents := |cs|;
      if delimiter != EscapeChar {
        RoundTrip(cs, delimiter);
        CanonicalIff(name, delimiter);
      }
    }

    /** `asString(delimiter?)`: the stored string verbatim under the name's
        own delimiter, otherwise the components re-escaped for the new
        one.  For a canonical string the two agree. */
    method AsString(d: Option<char>) returns (s: string)
      ensures d.None? || d.value == delimiter ==> s == name
      ensures d.Some? && d.value != delimiter ==> s == Serialize(Components(), d.value)
      ensures Canonical() ==> s == Serialize(Components(), if d.Some? then d.value else delimiter)
    {
      var sep := if d.Some? then d.value else delimiter;
      if sep == delimiter {
        return name;
      }
      var components := GetComponents();
      s := Serialize(components, sep);
    }

    /** `asDataString()`: `asString` under the default delimiter, so the
        stored string verbatim when that is the name's own delimiter, and
        otherwise the components re-escaped for `.`. */
    method AsDataString() returns (s: string)
      ensures s == if delimiter == DefaultDelimiter then name else Serialize(Components(), DefaultDelimiter)
      ensures Canonical() ==> s == Serialize(Components(), DefaultDelimiter)
    {
      s := AsString(Some(DefaultDelimiter));
    }

    /** `getDelimiterCharacter()` */
    method GetDelimiterCharacter() returns (s: string)
      ensures s == [delimiter]
    {
      s := [delimiter];
    }

    /** `isEmpty()`: answered from the cache. */
    method IsEmpty() returns (b: bool)
      ensures b <==> noComponents == 0
      ensures CacheConsistent() ==> (b <==> Components() == [])
    {
      b := noComponents == 0;
    }

    /** `getNoComponents()`: the cache. */
    method GetNoComponents() returns (n: int)
      ensures n == noComponents
      ensures CacheConsistent() ==> n == |Components()|
    {
      n := noComponents;
    }

    /** `getComponent(i)`: `undefined` (here `None`) outside the parse. */
    method GetComponent(i: int) returns (c: Option<string>)
      ensures 0 <= i < |Components()| ==> c == Some(Components()[i])
      ensures !(0 <= i < |Components()|) ==> c == None
    {
      var cs := GetComponents();
      c := if 0 <= i < |cs| then Some(cs[i]) else None;
    }

    /** `setComponent(i, c)`: `components[i] = c` on the parse, for an index
        inside it or just past its end (where it appends). */
    method SetComponent(i: int, c: string)
      requires 0 <= i <= |Components()|
      modifies this
      ensures name == Serialize(Assign(old(Components()), i, c), delimiter)
      ensures noComponents == if i < old(|Components()|) then old(|Components()|) else old(|Components()|) + 1
      ensures delimiter != EscapeChar && Assign(old(Components()), i, c) != [""] ==>
                Components() == Assign(old(Components()), i, c) && CacheConsistent()
    {
      var components := GetComponents();
      components := Assign(components, i, c);
      SetComponents(components);
    }

    /** `insert(i, c)`: `splice(i, 0, c)`. */
    method Insert(i: int, c: string)
      modifies this
      ensures name == Serialize(Splice(old(Components()), i, 0, [c]), delimiter)
      ensures noComponents == old(|Components()|) + 1
      ensures delimiter != EscapeChar && 0 <= i <= old(|Components()|) &&
              !(old(Components()) == [] && c == "") ==>
                Components() == old(Components())[..i] + [c] + old(Components())[i..] && CacheConsistent()
    {
      var components := GetComponents();
      components := Splice(components, i, 0, [c]);
      SetComponents(components);
      if 0 <= i <= |old(Components())| {
        SpliceInsert(old(Components()), i, c);
      }
    }

    /** `append(c)`: `push(c)`. */
    method Append(c: string)
      modifies this
      ensures name == Serialize(old(Components()) + [c], delimiter)
      ensures noComponents == old(|Components()|) + 1
      ensures delimiter != EscapeChar && !(old(Components()) == [] && c == "") ==>
                Components() == old(Components()) + [c] && CacheConsistent()
    {
      var components := GetComponents();
      components := components + [c];
      SetComponents(components);
    }

    /** `remove(i)`: `splice(i, 1)`. */
    method Remove(i: int)
      modifies this
      ensures name == Serialize(Splice(old(Components()), i, 1, []), delimiter)
      ensures noComponents == |Splice(old(Components()), i, 1, [])|
      ensures delimiter != EscapeChar && 0 <= i < old(|Components()|) &&
              old(Components())[..i] + old(Components())[i + 1..] != [""] ==>
                Components() == old(Components())[..i] + old(Components())[i + 1..] && CacheConsistent()
    {
      var components := GetComponents();
      components := Splice(components, i, 1, []);
      SetComponents(components);
      if 0 <= i < |old(Components())| {
        SpliceRemove(old(Components()), i);
      }
    }

    /** `concat(other)`: `other`'s components, read through the interface,
        pushed onto a parsed copy of the receiver's, then stored.  `other`
        may be the receiver itself (the name then doubles); its cached count
        must match its parse, otherwise the source reads `undefined`
        components. */
    method Concat(other: NameRef)
      requires Readable(other)
      modifies this
      ensures name == Serialize(old(Components()) + old(ComponentsOf(other)), delimiter)
      ensures noComponents == old(|Components()|) + old(|ComponentsOf(other)|)
      ensures delimiter != EscapeChar && old(Components()) + old(ComponentsOf(other)) != [""] ==>
                Components() == old(Components()) + old(ComponentsOf(other)) && CacheConsistent()
    {
      var components := GetComponents();
      var i := 0;
      var count := NoComponentsOf(other);
      while i < count
        invariant name == old(name) && noComponents == old(noComponents)
        invariant Readable(other) && ComponentsOf(other) == old(ComponentsOf(other))
        invariant count == |ComponentsOf(other)|
        invariant 0 <= i <= count
        invariant components == old(Components()) + ComponentsOf(other)[..i]
      {
        var c := ComponentOf(other, i);
        assert ComponentsOf(other)[..i + 1] == ComponentsOf(other)[..i] + [c.value];
        components := components + [c.value];
        i := i + 1;
        count := NoComponentsOf(other);
      }
      assert ComponentsOf(other)[..i] == ComponentsOf(other);
      SetComponents(components);
    }
  }

  class StringArrayName {
    /** Set by the constructor and never reassigned.  The source compares
        single UTF-16 code units with it, so only a delimiter of one code
        unit is modelled. */
    const delimiter: Utf16.PlaneChar
    var components: seq<string>

    /** `new StringArrayName(source, delimiter?)`: an omitted delimiter
        keeps the default. */
    constructor (source: seq<string>, delimiter: Option<Utf16.PlaneChar>)
      ensures components == source
      ensures this.delimiter == if delimiter.Some? then delimiter.value else DefaultDelimiter
    {
      components := source;
      this.delimiter := if delimiter.Some? then delimiter.value else DefaultDelimiter;
    }

    /** `asString(delimiter?)`: the escaped join, under the name's own
        delimiter when none is given.  Parsing it back with the same
        delimiter gives the components, except for `[""]`. */
    method AsString(d: Option<char>) returns (s: string)
      ensures s == Serialize(components, if d.Some? then d.value else delimiter)
      ensures var sep := if d.Some? then d.value else delimiter;
              sep != EscapeChar && (sep as int) < Utf16.FirstSupplementary ==>
                (Parse(s, sep) == components <==> components != [""])
    {
      var sep := if d.Some? then d.value else delimiter;
      s := Serialize(components, sep);
      if sep != EscapeChar {
        RoundTrip(components, sep);
      }
    }

    /** `asDataString()` */
    method AsDataString() returns (s: string)
      ensures s == Serialize(components, DefaultDelimiter)
    {
      s := AsString(Some(DefaultDelimiter));
    }

    /** `getDelimiterCharacter()` */
    method GetDelimiterCharacter() returns (s: string)
      ensures s == [delimiter]
    {
      s := [delimiter];
    }

    /** `isEmpty()` */
    method IsEmpty() returns (b: bool)
      ensures b <==> components == []
    {
      b := |components| == 0;
    }

    /** `getNoComponents()` */
    method GetNoComponents() returns (n: nat)
      ensures n == |components|
    {
      n := |components|;
    }

    /** `getComponent(i)`: `undefined` (here `None`) outside the list. */
    method GetComponent(i: int) returns (c: Option<string>)
      ensures 0 <= i < |components| ==> c == Some(components[i])
      ensures !(0 <= i < |components|) ==> c == None
    {
      c := if 0 <= i < |components| then Some(components[i]) else None;
    }

    /** `setComponent(i, c)`: `components[i] = c`, for an index inside the
        list or just past its end (where it appends). */
    method SetComponent(i: int, c: string)
      requires 0 <= i <= |components|
      modifies this
      ensures components == Assign(old(components), i, c)
      ensures i == old(|components|) ==> components == old(components) + [c]
    {
      AssignPastEnd(components, c);
      components := Assign(components, i, c);
    }

    /** `insert(i, c)`: `splice(i, 0, c)`; inside the list, `c` lands at
        position `i`. */
    method Insert(i: int, c: string)
      modifies this
      ensures components == Splice(old(components), i, 0, [c])
      ensures 0 <= i <= old(|components|) ==> components == old(components[..i]) + [c] + old(components[i..])
    {
      components := Splice(components, i, 0, [c]);
      if 0 <= i <= |old(components)| {
        SpliceInsert(old(components), i, c);
      }
    }

    /** `append(c)`: `push(c)`. */
    method Append(c: string)
      modifies this
      ensures components == old(components) + [c]
    {
      components := components + [c];
    }

    /** `remove(i)`: `splice(i, 1)`; inside the list, position `i` goes. */
    method Remove(i: int)
      modifies this
      ensures components == Splice(old(components), i, 1, [])
      ensures 0 <= i < old(|components|) ==> components == old(components[..i]) + old(components[i + 1..])
    {
      components := Splice(components, i, 1, []);
      if 0 <= i < |old(components)| {
        SpliceRemove(old(components), i);
      }
    }

    /** `concat(other)`: appends `other`'s components one by one.  `other`
        may be the receiver only when it is empty (otherwise the loop bound
        grows with every append and the source never ends), and a
        string-backed `other` must have a cached count that matches its
        parse. */
    method Concat(other: NameRef)
      requires Readable(other) && (other == ArrayRef(this) ==> components == [])
      modifies this
      ensures components == old(components) + ComponentsOf(other)
    {
      var i := 0;
      var count := NoComponentsOf(other);
      while i < count
        invariant Readable(other) && ComponentsOf(other) == old(ComponentsOf(other))
        invariant count == |ComponentsOf(other)|
        invariant 0 <= i <= count
        invariant components == old(components) + ComponentsOf(other)[..i]
        invariant other == ArrayRef(this) ==> count == 0
      {
        var c := ComponentOf(other, i);
        assert ComponentsOf(other)[..i + 1] == ComponentsOf(other)[..i] + [c.value];
        Append(c.value);
        i := i + 1;
        count := NoComponentsOf(other);
      }
      assert ComponentsOf(other)[..i] == ComponentsOf(other);
    }
  }

  /** A reference to either implementation, as the `Name` interface sees it. */
  datatype NameRef = StringRef(s: StringName) | ArrayRef(a: StringArrayName)

  /** The object behind a reference. */
  function Target(n: NameRef): object
  {
    match n
    case StringRef(s) => s
    case ArrayRef(a) => a
  }

  /** The components `getComponent` yields for the referenced name. */
  function ComponentsOf(n: NameRef): seq<string>
    reads Target(n)
  {
    match n
    case StringRef(s) => s.Components()
    case ArrayRef(a) => a.components
  }

  /** `getNoComponents` and `getComponent` agree: always for a list, only
      with a consistent cache for a string. */
  predicate Readable(n: NameRef)
    reads Target(n)
  {
    n.StringRef? ==> n.s.CacheConsistent()
  }

  /** `other.getNoComponents()` through the interface. */
  method NoComponentsOf(n: NameRef) returns (k: int)
    ensures k == if n.StringRef? then n.s.noComponents else |n.a.components|
    ensures Readable(n) ==> k == |ComponentsOf(n)|
  {
    match n
    case StringRef(s) =>
      k := s.GetNoComponents();
    case ArrayRef(a) =>
      k := a.GetNoComponents();
  }

  /** `other.getComponent(i)` through the interface. */
  method ComponentOf(n: NameRef, i: int) returns (c: Option<string>)
    ensures 0 <= i < |ComponentsOf(n)| ==> c == Some(ComponentsOf(n)[i])
    ensures !(0 <= i < |ComponentsOf(n)|) ==> c == None
  {
    match n
    case StringRef(s) =>
      c := s.GetComponent(i);
    case ArrayRef(a) =>
      c := a.GetComponent(i);
  }

  /** Overwriting the only component of `a` with `""` leaves a string name
      whose cache disagrees with its parse: it reports one component and
      is not empty, yet yields nothing at index 0. */
  method CacheDriftScenario() returns (count: int, empty: bool, first: Option<string>)
    ensures count == 1 && !empty && first == None
  {
    var n := new StringName("a", None);
    assert "a"[1..] == [] && "" + "a" == "a";
    n.SetComponent(0, "");
    SerializeEmpty([""], DefaultDelimiter);
    count := n.GetNoComponents();
    empty := n.IsEmpty();
    first := n.GetComponent(0);
  }

  /** A string name built from a non-canonical string (a lone escape before
      an ordinary character) prints that string verbatim under its own
      delimiter, yet its components re-serialize to something else. */
  method VerbatimScenario() returns (own: string, data: string)
    ensures own == ['a', EscapeChar, 'x']
    ensures data == "ax"
  {
    var n := new StringName(['a', EscapeChar, 'x'], None);
    own := n.AsString(None);
    NonCanonicalExample();
    var slash := n.AsString(Some('/'));
    assert Escape("ax", '/') == "ax";
    data := slash;
  }

  /** A string name concatenated with itself doubles. */
  method SelfConcatScenario() returns (cs: seq<string>)
    ensures cs == ["a", "b", "a", "b"]
  {
    RoundTrip(["a", "b"], DefaultDelimiter);
    var n := new StringName(Serialize(["a", "b"], DefaultDelimiter), None);
    n.Concat(StringRef(n));
    cs := n.GetComponents();
  }

  /** The two implementations agree on every list: a string name stored
      from it prints what the array name prints, and reads the list back
      unless it is `[""]`. */
  method AgreementScenario(cs: seq<string>) returns (fromString: string, fromArray: string, parsed: seq<string>)
    ensures fromString == fromArray
    ensures parsed == cs <==> cs != [""]
  {
    var s := new StringName("", None);
    s.SetComponents(cs);
    var a := new StringArrayName(cs, None);
    fromString := s.AsString(None);
    fromArray := a.AsString(None);
    parsed := s.GetComponents();
    RoundTrip(cs, DefaultDelimiter);
  }
}
