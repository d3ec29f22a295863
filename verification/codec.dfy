/** The escape/delimiter codec of the name type: how a list of components is
    written as one delimited string (`asString`, `setComponentList`) and how
    such a string is read back (`getComponentList`).  Every stage of the
    repository repeats the same two algorithms; they are defined once here. */
module Codec {

  /** ESCAPE_CHARACTER of the repository. */
  const EscapeChar: char := '\\'

  /** DEFAULT_DELIMITER of the repository. */
  const DefaultDelimiter: char := '.'

  // ---------------------------------------------------------------------
  // Serialization
  // ---------------------------------------------------------------------

  /** `s.replace(new RegExp(x, 'g'), replacement)`: every occurrence of the
      character `x` in `s` replaced by the string `replacement`. */
  function ReplaceChar(s: string, x: char, replacement: string): (r: string)
    ensures x !in s ==> r == s
    ensures |replacement| >= 1 ==> |r| >= |s|
  {
    if s == [] then []
    else (if s[0] == x then replacement else [s[0]]) + ReplaceChar(s[1..], x, replacement)
  }

  /** Escaping of one component, in the source's order: first every escape
      character is doubled, then every delimiter is prefixed by the escape
      character. */
  function Escape(c: string, d: char): (r: string)
    ensures |r| >= |c|
    ensures EscapeChar !in c && d !in c ==> r == c
  {
    ReplaceChar(ReplaceChar(c, EscapeChar, [EscapeChar, EscapeChar]), d, [EscapeChar, d])
  }

  /** `components.map(c => Escape(c, d))` */
  function EscapeAll(cs: seq<string>, d: char): (r: seq<string>)
    ensures |r| == |cs|
    ensures forall i :: 0 <= i < |cs| ==> r[i] == Escape(cs[i], d)
  {
    if cs == [] then [] else [Escape(cs[0], d)] + EscapeAll(cs[1..], d)
  }

  /** `parts.join(d)` */
  function Join(parts: seq<string>, d: char): (r: string)
    ensures |r| >= |parts| - 1
    ensures |parts| > 0 ==> |r| >= |parts[0]| && r[..|parts[0]|] == parts[0]
  {
    if |parts| == 0 then ""
    else if |parts| == 1 then parts[0]
    else parts[0] + [d] + Join(parts[1..], d)
  }

  /** The escaped join of `cs` under delimiter `d`. */
  function Serialize(cs: seq<string>, d: char): (r: string)
    ensures |r| >= |cs| - 1
    ensures cs != [] ==> |r| >= |cs[0]|
  {
    Join(EscapeAll(cs, d), d)
  }

  /** The escaping of one character, as it comes out of the two passes of
      `Escape` when the delimiter is not the escape character. */
  function EscapedChar(ch: char, d: char): string
  {
    if ch == EscapeChar then [EscapeChar, EscapeChar]
    else if ch == d then [EscapeChar, d]
    else [ch]
  }

  /** Character-by-character escaping, an independent reading of `Escape`. */
  function EscapeEach(c: string, d: char): string
  {
    if c == [] then [] else EscapedChar(c[0], d) + EscapeEach(c[1..], d)
  }

  lemma {:induction false} ReplaceCharConcat(a: string, b: string, x: char, replacement: string)
    ensures ReplaceChar(a + b, x, replacement) == ReplaceChar(a, x, replacement) + ReplaceChar(b, x, replacement)
  {
    if a != [] {
      assert (a + b)[0] == a[0];
      assert (a + b)[1..] == a[1..] + b;
      ReplaceCharConcat(a[1..], b, x, replacement);
    } else {
      assert a + b == b;
    }
  }

  /** The two regular-expression passes escape character by character as
      long as the delimiter differs from the escape character: the second
      pass never touches an escape character inserted by the first. */
  lemma {:induction false} EscapeIsCharwise(c: string, d: char)
    requires d != EscapeChar
    ensures Escape(c, d) == EscapeEach(c, d)
  {
    if c != [] {
      var piece := if c[0] == EscapeChar then [EscapeChar, EscapeChar] else [c[0]];
      var rest := ReplaceChar(c[1..], EscapeChar, [EscapeChar, EscapeChar]);
      assert ReplaceChar(c, EscapeChar, [EscapeChar, EscapeChar]) == piece + rest;
      ReplaceCharConcat(piece, rest, d, [EscapeChar, d]);
      assert ReplaceChar(piece, d, [EscapeChar, d]) == EscapedChar(c[0], d) by {
        if c[0] == EscapeChar {
          assert piece == [EscapeChar] + [EscapeChar];
          ReplaceCharConcat([EscapeChar], [EscapeChar], d, [EscapeChar, d]);
        }
      }
      EscapeIsCharwise(c[1..], d);
    }
  }

  /** Serializing at least two components puts a delimiter right after the
      first escaped component. */
  lemma SerializeCons(cs: seq<string>, d: char)
    requires |cs| >= 2
    ensures Serialize(cs, d) == Escape(cs[0], d) + [d] + Serialize(cs[1..], d)
  {
    assert EscapeAll(cs, d)[1..] == EscapeAll(cs[1..], d);
  }

  /** Only the empty list and the list holding one empty component
      serialize to the empty string. */
  lemma {:induction false} SerializeEmpty(cs: seq<string>, d: char)
    ensures Serialize(cs, d) == "" <==> cs == [] || cs == [""]
  {
    if |cs| == 1 {
      assert Serialize(cs, d) == Escape(cs[0], d);
    } else if |cs| >= 2 {
      SerializeCons(cs, d);
    }
  }

  /** Components holding neither the escape character nor the delimiter
      are joined unchanged. */
  lemma PlainSerialize(cs: seq<string>, d: char)
    requires forall i :: 0 <= i < |cs| ==> EscapeChar !in cs[i] && d !in cs[i]
    ensures Serialize(cs, d) == Join(cs, d)
  {
    assert EscapeAll(cs, d) == cs;
  }

  // ---------------------------------------------------------------------
  // Parsing
  // ---------------------------------------------------------------------

  /** The left-to-right scan of `getComponentList`: the rest `s` of the
      input, the component being built, and the escape flag give the
      components still to come, the current one included.  An escaped
      character is taken literally, an unescaped escape character only sets
      the flag, an unescaped delimiter closes the current component, and at
      the end the current component is always pushed. */
  function Scan(s: string, d: char, current: string, escaped: bool): (r: seq<string>)
    ensures |r| >= 1
    decreases |s|
  {
    if s == [] then [current]
    else if escaped then Scan(s[1..], d, current + [s[0]], false)
    else if s[0] == EscapeChar then Scan(s[1..], d, current, true)
    else if s[0] == d then [current] + Scan(s[1..], d, "", false)
    else Scan(s[1..], d, current + [s[0]], false)
  }

  /** The components a stored string stands for: none for the empty
      string, otherwise the result of the scan. */
  function Parse(s: string, d: char): (r: seq<string>)
    ensures r == [] <==> s == []
  {
    if s == [] then [] else Scan(s, d, "", false)
  }

  /** `getComponentList` of a string-backed name: the character loop with
      its escape flag and component buffer. */
  method ParseComponents(s: string, d: char) returns (components: seq<string>)
    ensures components == Parse(s, d)
  {
    if s == "" {
      return [];
    }
    components := [];
    var current := "";
    var escaped := false;
    var i := 0;
    while i < |s|
      invariant 0 <= i <= |s|
      invariant components + Scan(s[i..], d, current, escaped) == Scan(s, d, "", false)
    {
      var ch := s[i];
      assert s[i..][0] == ch && s[i..][1..] == s[i + 1..];
      if escaped {
        current := current + [ch];
        escaped := false;
      } else if ch == EscapeChar {
        escaped := true;
      } else if ch == d {
        components := components + [current];
        current := "";
      } else {
        current := current + [ch];
      }
      i := i + 1;
    }
    assert s[i..] == [];
    components := components + [current];
  }

  // ---------------------------------------------------------------------
  // Properties of the codec
  // ---------------------------------------------------------------------

  /** A character that follows an unescaped escape character is appended
      literally, whatever it is (the delimiter, the escape character or any
      other). */
  lemma EscapedCharIsLiteral(x: char, rest: string, d: char, current: string)
    ensures Scan([EscapeChar, x] + rest, d, current, false) == Scan(rest, d, current + [x], false)
  {
    var s := [EscapeChar, x] + rest;
    assert s[1..] == [x] + rest && s[1..][1..] == rest;
  }

  /** Reading an escaped component adds exactly that component to the
      component being built, and leaves the scan unescaped. */
  lemma {:induction false} ScanEscaped(c: string, rest: string, d: char, current: string)
    requires d != EscapeChar
    ensures Scan(EscapeEach(c, d) + rest, d, current, false) == Scan(rest, d, current + c, false)
  {
    if c == [] {
      assert EscapeEach(c, d) + rest == rest;
      assert current + c == current;
    } else {
      var t := EscapeEach(c[1..], d) + rest;
      assert EscapeEach(c, d) + rest == EscapedChar(c[0], d) + t;
      if c[0] == EscapeChar || c[0] == d {
        EscapedCharIsLiteral(c[0], t, d, current);
      } else {
        var s := [c[0]] + t;
        assert s[1..] == t;
      }
      ScanEscaped(c[1..], rest, d, current + [c[0]]);
      assert current + [c[0]] + c[1..] == current + c;
    }
  }

  /** Scanning a non-empty serialization yields its components, the first
      one prefixed by whatever was already in the buffer. */
  lemma {:induction false} ScanSerialized(cs: seq<string>, d: char, current: string)
    requires d != EscapeChar
    requires |cs| >= 1
    ensures Scan(Serialize(cs, d), d, current, false) == [current + cs[0]] + cs[1..]
  {
    EscapeIsCharwise(cs[0], d);
    if |cs| == 1 {
      assert Serialize(cs, d) == EscapeEach(cs[0], d) + [];
      ScanEscaped(cs[0], [], d, current);
    } else {
      SerializeCons(cs, d);
      var tail := [d] + Serialize(cs[1..], d);
      assert Serialize(cs, d) == EscapeEach(cs[0], d) + tail;
      ScanEscaped(cs[0], tail, d, current);
      assert tail[0] == d && tail[1..] == Serialize(cs[1..], d);
      ScanSerialized(cs[1..], d, "");
      assert "" + cs[1..][0] == cs[1];
      assert [cs[1]] + cs[1..][1..] == cs[1..];
    }
  }

  /** Round trip: parsing the serialization of `cs` gives back `cs`, for
      every list except `[""]`, which serializes to the empty string and is
      read back as the empty list. */
  lemma RoundTrip(cs: seq<string>, d: char)
    requires d != EscapeChar
    ensures Parse(Serialize(cs, d), d) == cs <==> cs != [""]
    ensures cs == [""] ==> Parse(Serialize(cs, d), d) == []
  {
    SerializeEmpty(cs, d);
    if cs != [] && cs != [""] {
      ScanSerialized(cs, d, "");
      assert "" + cs[0] == cs[0];
      assert [cs[0]] + cs[1..] == cs;
    }
  }

  /** Serialization is injective except that `[]` and `[""]` share the
      empty string; names are compared through it. */
  lemma SerializeInjective(cs: seq<string>, ds: seq<string>, d: char)
    requires d != EscapeChar
    ensures Serialize(cs, d) == Serialize(ds, d) <==>
              cs == ds || ({cs, ds} == {[], [""]})
  {
    RoundTrip(cs, d);
    RoundTrip(ds, d);
    SerializeEmpty(cs, d);
    SerializeEmpty(ds, d);
  }

  /** A stored string survives parsing and re-serialization exactly when it
      is canonical, that is, the serialization of some component list. */
  lemma CanonicalIff(s: string, d: char)
    requires d != EscapeChar
    ensures Serialize(Parse(s, d), d) == s <==> exists cs :: Serialize(cs, d) == s
  {
    if cs :| Serialize(cs, d) == s {
      RoundTrip(cs, d);
      if cs == [""] {
        assert Serialize([], d) == "";
      }
    }
  }

  /** `"a\x"` (escape before an ordinary character) is read as the single
      component `"ax"`, which is re-serialized as `"ax"`: that string is not
      canonical. */
  lemma NonCanonicalExample()
    ensures Parse(['a', EscapeChar, 'x'], DefaultDelimiter) == ["ax"]
    ensures Serialize(["ax"], DefaultDelimiter) == "ax"
  {
    var s := ['a', EscapeChar, 'x'];
    assert s[0] == 'a' && s[1..] == [EscapeChar, 'x'] + [];
    assert "" + ['a'] == "a";
    EscapedCharIsLiteral('x', [], DefaultDelimiter, "a");
    assert Escape("ax", DefaultDelimiter) == "ax";
  }

  /** Number of delimiters in `s` that are not preceded by an unescaped
      escape character. */
  function UnescapedDelimiters(s: string, d: char, escaped: bool): nat
    decreases |s|
  {
    if s == [] then 0
    else if escaped then UnescapedDelimiters(s[1..], d, false)
    else if s[0] == EscapeChar then UnescapedDelimiters(s[1..], d, true)
    else (if s[0] == d then 1 else 0) + UnescapedDelimiters(s[1..], d, false)
  }

  lemma {:induction false} ScanLength(s: string, d: char, current: string, escaped: bool)
    ensures |Scan(s, d, current, escaped)| == 1 + UnescapedDelimiters(s, d, escaped)
    decreases |s|
  {
    if s != [] {
      if escaped {
        ScanLength(s[1..], d, current + [s[0]], false);
      } else if s[0] == EscapeChar {
        ScanLength(s[1..], d, current, true);
      } else if s[0] == d {
        ScanLength(s[1..], d, "", false);
      } else {
        ScanLength(s[1..], d, current + [s[0]], false);
      }
    }
  }

  /** A non-empty stored string with k unescaped delimiters has k + 1
      components; the empty string has none. */
  lemma ParseCount(s: string, d: char)
    ensures |Parse(s, d)| == if s == [] then 0 else 1 + UnescapedDelimiters(s, d, false)
  {
    if s != [] {
      ScanLength(s, d, "", false);
    }
  }

  /** Whether the scan of `s`, started with flag `escaped`, ends with the
      flag set (the input ends in an unresolved escape). */
  function EndsEscaped(s: string, escaped: bool): bool
    decreases |s|
  {
    if s == [] then escaped
    else EndsEscaped(s[1..], if escaped then false else s[0] == EscapeChar)
  }

  /** `r` with `ch` appended to its last component. */
  function AppendToLast(r: seq<string>, ch: char): seq<string>
    requires |r| >= 1
  {
    r[..|r| - 1] + [r[|r| - 1] + [ch]]
  }

  /** An escape character at the end of the input is silently dropped when
      it is unescaped (the flag is set and nothing is emitted); when it is
      itself escaped it is appended to the last component. */
  lemma {:induction false} TrailingEscape(s: string, d: char, current: string, escaped: bool)
    ensures Scan(s + [EscapeChar], d, current, escaped) ==
              if EndsEscaped(s, escaped) then AppendToLast(Scan(s, d, current, escaped), EscapeChar)
              else Scan(s, d, current, escaped)
    decreases |s|
  {
    var t := s + [EscapeChar];
    if s == [] {
      assert t == [EscapeChar] && t[1..] == [];
    } else {
      assert t[0] == s[0] && t[1..] == s[1..] + [EscapeChar];
      if escaped {
        TrailingEscape(s[1..], d, current + [s[0]], false);
      } else if s[0] == EscapeChar {
        TrailingEscape(s[1..], d, current, true);
      } else if s[0] == d {
        TrailingEscape(s[1..], d, "", false);
        var r := Scan(s[1..], d, "", false);
        if EndsEscaped(s[1..], false) {
          assert AppendToLast([current] + r, EscapeChar) == [current] + AppendToLast(r, EscapeChar);
        }
      } else {
        TrailingEscape(s[1..], d, current + [s[0]], false);
      }
    }
  }

  /** A component holding the delimiter: `["a.b", "c"]` is written
      `a\.b.c`, and `a\.b.c` is read back as `["a.b", "c"]`. */
  lemma DelimiterInComponentExample()
    ensures Serialize(["a.b", "c"], DefaultDelimiter) == ['a', EscapeChar, '.', 'b', '.', 'c']
    ensures Parse(['a', EscapeChar, '.', 'b', '.', 'c'], DefaultDelimiter) == ["a.b", "c"]
  {
    EscapeIsCharwise("a.b", DefaultDelimiter);
    PlainSerialize(["c"], DefaultDelimiter);
    SerializeCons(["a.b", "c"], DefaultDelimiter);
    assert ["a.b", "c"][1..] == ["c"];
    RoundTrip(["a.b", "c"], DefaultDelimiter);
  }

  /** With the escape character as delimiter the round trip breaks: the
      separator of `["a", "b"]` is read as an escape and the two components
      fuse. */
  lemma EscapeAsDelimiterBreaksRoundTrip()
    ensures Serialize(["a", "b"], EscapeChar) == ['a', EscapeChar, 'b']
    ensures Parse(Serialize(["a", "b"], EscapeChar), EscapeChar) == ["ab"]
  {
    SerializeCons(["a", "b"], EscapeChar);
    assert ["a", "b"][1..] == ["b"];
    assert Escape("a", EscapeChar) == "a" && Escape("b", EscapeChar) == "b";
    var s := ['a', EscapeChar, 'b'];
    assert s[0] == 'a' && s[1..] == [EscapeChar, 'b'] + [];
    EscapedCharIsLiteral('b', [], EscapeChar, "a");
    assert "" + ['a'] == "a" && "a" + ['b'] == "ab";
    assert Scan(s, EscapeChar, "", false) == Scan([EscapeChar, 'b'] + [], EscapeChar, "a", false);
  }
}
