/** The two representations behind `AbstractName` in the stages that build the
    whole contract from two storage primitives (b03, b06): `StringName`
    keeps one escaped string, `StringArrayName` keeps the raw component
    list.  A name's storage is one of the two, and `View` and `Store` are
    the primitives `getComponentList` and `setComponentList` as functions. */
module Representation {
  import opened Codec

  datatype Storage = StringBacked(name: string) | ArrayBacked(components: seq<string>)

  /** `getComponentList()`: parse the stored string, or return the list. */
  function View(s: Storage, d: char): (r: seq<string>)
    ensures s.ArrayBacked? ==> r == s.components
    ensures s.StringBacked? ==> (r == [] <==> s.name == "")
  {
    match s
    case StringBacked(name) => Parse(name, d)
    case ArrayBacked(components) => components
  }

  /** `setComponentList(cs)`: store the escaped join, or the list itself;
      the representation never changes. */
  function Store(s: Storage, cs: seq<string>, d: char): (r: Storage)
    ensures r.StringBacked? <==> s.StringBacked?
  {
    if s.StringBacked? then StringBacked(Serialize(cs, d)) else ArrayBacked(cs)
  }

  /** Reading back what was stored gives the stored list, except that a
      string-backed name cannot hold `[""]`: it reads back as `[]`. */
  lemma StoreThenView(s: Storage, cs: seq<string>, d: char)
    requires d != EscapeChar
    ensures View(Store(s, cs, d), d) == if s.StringBacked? && cs == [""] then [] else cs
  {
    if s.StringBacked? {
      RoundTrip(cs, d);
    }
  }

  /** A string-backed name built from the serialization of `cs` and an
      array-backed name built from `cs` have the same data string, for
      every `cs` (for `[""]` too, whose data string is empty either way). */
  lemma RepresentationsAgree(cs: seq<string>, d: char)
    requires d != EscapeChar
    ensures Serialize(View(StringBacked(Serialize(cs, d)), d), DefaultDelimiter) ==
            Serialize(View(ArrayBacked(cs), d), DefaultDelimiter)
  {
    RoundTrip(cs, d);
    if cs == [""] {
      assert Serialize([], DefaultDelimiter) == "" == Serialize([""], DefaultDelimiter);
    }
  }
}
