/** Stage b03: mutable names.  `AbstractName` builds everything on the two
    primitives `getComponentList` and `setComponentList` and edits the
    receiver in place; the subclass (`StringName` or `StringArrayName`) is
    the `storage` tag of the one class `Name`.  Nothing is validated:
    indices are unchecked and JavaScript's `splice` clamps them. */
module NamesB03 {
  import opened Codec
  import opened HashCode
  import opened JsArray
  import opened Representation
  import Common
  import Utf16

  class Name {
    /** Set by the constructor and never reassigned.  The source compares
        single UTF-16 code units with it, so only a delimiter of one code
        unit is modelled. */
    const delimiter: Utf16.PlaneChar
    var storage: Storage

    /** `new StringName(source, delimiter?)`: no validation; an omitted
        delimiter defaults. */
    constructor StringName(source: string, delimiter: Common.Option<Utf16.PlaneChar>)
      ensures storage == StringBacked(source)
      ensures this.delimiter == if delimiter.Some? then delimiter.value else DefaultDelimiter
    {
      this.delimiter := if delimiter.Some? then delimiter.value else DefaultDelimiter;
      storage := StringBacked(source);
    }

    /** `new StringArrayName(source, delimiter?)`: stores the given list. */
    constructor StringArrayName(source: seq<string>, delimiter: Common.Option<Utf16.PlaneChar>)
      ensures storage == ArrayBacked(source) && Components() == source
      ensures this.delimiter == if delimiter.Some? then delimiter.value else DefaultDelimiter
    {
      this.delimiter := if delimiter.Some? then delimiter.value else DefaultDelimiter;
      storage := ArrayBacked(source);
    }

    /** The component list the name stands for. */
    function Components(): seq<string>
      reads this
    {
      View(storage, delimiter)
    }

    /** The canonical form: the serialization under the default delimiter. */
    function DataString(): string
      reads this
    {
      Serialize(Components(), DefaultDelimiter)
    }

    // --- the two primitives and clone ---

    /** `getComponentList()`: the parser for `StringName`; for
        `StringArrayName` the array itself. */
    method GetComponentList() returns (cs: seq<string>)
      ensures cs == Components()
    {
      match storage
      case StringBacked(name) =>
        cs := ParseComponents(name, delimiter);
      case ArrayBacked(components) =>
        cs := components;
    }

    /** `setComponentList(cs)`: the escaped join for `StringName`, the list
        for `StringArrayName`.  What is read back is `cs`, except that a
        string-backed name turns `[""]` into `[]`. */
    method SetComponentList(cs: seq<string>)
      modifies this
      ensures storage == Store(old(storage), cs, delimiter)
      ensures delimiter != EscapeChar ==>
                Components() == if old(storage).StringBacked? && cs == [""] then [] else cs
    {
      if storage.StringBacked? {
        storage := StringBacked(Serialize(cs, delimiter));
      } else {
        storage := ArrayBacked(cs);
      }
      if delimiter != EscapeChar {
        StoreThenView(old(storage), cs, delimiter);
      }
    }

    /** `clone()`: an independent name with the same string, or a copy of
        the array, and the same delimiter. */
    method Clone() returns (n: Name)
      ensures fresh(n)
      ensures n.storage == storage && n.delimiter == delimiter
    {
      if storage.StringBacked? {
        n := new Name.StringName(storage.name, Common.Some(delimiter));
      } else {
        n := new Name.StringArrayName(storage.components, Common.Some(delimiter));
      }
    }

    // --- queries ---

    /** `asString(delimiter?)`: an omitted delimiter means the name's own. */
    method AsString(d: Common.Option<char>) returns (s: string)
      ensures s == Serialize(Components(), if d.Some? then d.value else delimiter)
      ensures d.None? && delimiter != EscapeChar && Components() != [""] ==>
                Parse(s, delimiter) == Components()
    {
      var sep := if d.Some? then d.value else delimiter;
      var components := GetComponentList();
      s := Serialize(components, sep);
      if d.None? && delimiter != EscapeChar {
        RoundTrip(components, delimiter);
      }
    }

    /** `asDataString()` */
    method AsDataString() returns (s: string)
      ensures s == DataString()
    {
      s := AsString(Common.Some(DefaultDelimiter));
    }

    /** `isEqual(other)`: equality of the data strings. */
    method IsEqual(other: Name) returns (b: bool)
      ensures b <==> DataString() == other.DataString()
      ensures b <==> Components() == other.Components() ||
                     {Components(), other.Components()} == {[], [""]}
    {
      var mine := AsDataString();
      var theirs := other.AsDataString();
      b := mine == theirs;
      SerializeInjective(Components(), other.Components(), DefaultDelimiter);
    }

    /** `getHashCode()`: the fold over the data string. */
    method GetHashCode() returns (h: int)
      ensures h == Hash(DataString())
      ensures -TwoTo31 <= h < TwoTo31
    {
      var s := AsDataString();
      h := StringHash(s);
    }

    /** `isEmpty()` */
    method IsEmpty() returns (b: bool)
      ensures b <==> Components() == []
    {
      var cs := GetComponentList();
      b := |cs| == 0;
    }

    /** `getDelimiterCharacter()` */
    method GetDelimiterCharacter() returns (s: string)
      ensures s == [delimiter]
    {
      s := [delimiter];
    }

    /** `getNoComponents()` */
    method GetNoComponents() returns (n: nat)
      ensures n == |Components()|
    {
      var cs := GetComponentList();
      n := |cs|;
    }

    /** `getComponent(i)`: JavaScript yields `undefined` (here `None`) for
        an index outside the list. */
    method GetComponent(i: int) returns (c: Common.Option<string>)
      ensures 0 <= i < |Components()| ==> c == Common.Some(Components()[i])
      ensures !(0 <= i < |Components()|) ==> c == Common.None
    {
      var cs := GetComponentList();
      c := if 0 <= i < |cs| then Common.Some(cs[i]) else Common.None;
    }

    // --- in-place mutators ---

    /** `setComponent(i, c)`: `components[i] = c`; inside the list position
        `i` is replaced, just past its end `c` is appended. */
    method SetComponent(i: int, c: string)
      requires 0 <= i <= |Components()|
      modifies this
      ensures storage == Store(old(storage), Assign(old(Components()), i, c), delimiter)
      ensures delimiter != EscapeChar && !(storage.StringBacked? && Assign(old(Components()), i, c) == [""]) ==>
                Components() == Assign(old(Components()), i, c) &&
                |Components()| == if i < old(|Components()|) then old(|Components()|) else old(|Components()|) + 1
    {
      var components := GetComponentList();
      components := Assign(components, i, c);
      SetComponentList(components);
    }

    /** `insert(i, c)`: `splice(i, 0, c)`; inside the list, `c` lands at
        position `i`. */
    method Insert(i: int, c: string)
      modifies this
      ensures storage == Store(old(storage), Splice(old(Components()), i, 0, [c]), delimiter)
      ensures delimiter != EscapeChar && 0 <= i <= old(|Components()|) &&
              !(storage.StringBacked? && old(Components()) == [] && c == "") ==>
                Components() == old(Components())[..i] + [c] + old(Components())[i..]
    {
      var components := GetComponentList();
      components := Splice(components, i, 0, [c]);
      SetComponentList(components);
      if 0 <= i <= |old(Components())| {
        SpliceInsert(old(Components()), i, c);
      }
    }

    /** `append(c)`: `push(c)`. */
    method Append(c: string)
      modifies this
      ensures storage == Store(old(storage), old(Components()) + [c], delimiter)
      ensures delimiter != EscapeChar && !(storage.StringBacked? && old(Components()) == [] && c == "") ==>
                Components() == old(Components()) + [c]
    {
      var components := GetComponentList();
      components := components + [c];
      SetComponentList(components);
    }

    /** `remove(i)`: `splice(i, 1)`; inside the list, position `i` goes. */
    method Remove(i: int)
      modifies this
      ensures storage == Store(old(storage), Splice(old(Components()), i, 1, []), delimiter)
      ensures delimiter != EscapeChar && 0 <= i < old(|Components()|) &&
              !(storage.StringBacked? && old(Components())[..i] + old(Components())[i + 1..] == [""]) ==>
                Components() == old(Components())[..i] + old(Components())[i + 1..]
    {
      var components := GetComponentList();
      components := Splice(components, i, 1, []);
      SetComponentList(components);
      if 0 <= i < |old(Components())| {
        SpliceRemove(old(Components()), i);
      }
    }

    /** `concat(other)`: `other`'s components pushed in order onto the
        receiver's list, then stored back.  A string-backed name may be
        concatenated with itself (its list is a parsed copy, so it doubles);
        a non-empty array-backed one may not: its list is the array itself,
        the loop bound grows with every push and the source never ends. */
    method Concat(other: Name)
      requires other == this ==> storage.StringBacked? || Components() == []
      modifies this
      ensures storage == Store(old(storage), old(Components()) + old(other.Components()), delimiter)
      ensures delimiter != EscapeChar &&
              !(storage.StringBacked? && old(Components()) + old(other.Components()) == [""]) ==>
                Components() == old(Components()) + old(other.Components())
    {
      var components := GetComponentList();
      var count := other.GetNoComponents();
      var i := 0;
      while i < count
        invariant 0 <= i <= count == |other.Components()|
        invariant components == old(Components()) + other.Components()[..i]
        invariant storage == old(storage) && other.storage == old(other.storage)
      {
        var c := other.GetComponent(i);
        assert other.Components()[..i + 1] == other.Components()[..i] + [c.value];
        components := components + [c.value];
        i := i + 1;
      }
      assert other.Components()[..i] == other.Components();
      SetComponentList(components);
    }
  }

  /** The component `""` written over the only component of the one-
      component string-backed name `a` silently leaves an empty name. */
  method EmptyComponentScenario() returns (count: nat)
    ensures count == 0
  {
    var n := new Name.StringName("a", Common.None);
    assert "a"[1..] == [] && "" + "a" == "a";
    n.SetComponent(0, "");
    SerializeEmpty([""], DefaultDelimiter);
    count := n.GetNoComponents();
  }

  /** A clone is independent: editing it leaves the original untouched. */
  method CloneScenario() returns (original: seq<string>, copy: seq<string>)
    ensures original == ["a", "b"] && copy == ["a", "b", "c"]
  {
    var n := new Name.StringArrayName(["a", "b"], Common.None);
    var m := n.Clone();
    m.Append("c");
    original := n.GetComponentList();
    copy := m.GetComponentList();
  }

  /** A string-backed name concatenated with itself doubles. */
  method SelfConcatScenario() returns (cs: seq<string>)
    ensures cs == ["a", "b", "a", "b"]
  {
    RoundTrip(["a", "b"], DefaultDelimiter);
    var n := new Name.StringName(Serialize(["a", "b"], DefaultDelimiter), Common.None);
    n.Concat(n);
    cs := n.GetComponentList();
  }
}
