/** The precondition and invariant checks of the contract-checked stages
    (b04 and b06 `AbstractName`): each either passes or raises the
    exception the source raises. */
module Contract {
  import opened Common
  import Codec
  import Utf16

  /** `assertValidIndex(i, max)`: an index for reading or replacing. */
  function AssertValidIndex(i: int, max: int): (r: Outcome)
    ensures r.Pass? <==> 0 <= i < max
    ensures r.Fail? ==> r.error == IllegalArgument
  {
    if i >= 0 && i < max then Pass else Fail(IllegalArgument)
  }

  /** `assertValidInsertionIndex(i, max)`: an index for inserting. */
  function AssertValidInsertionIndex(i: int, max: int): (r: Outcome)
    ensures r.Pass? <==> 0 <= i <= max
    ensures r.Fail? ==> r.error == IllegalArgument
  {
    if i >= 0 && i <= max then Pass else Fail(IllegalArgument)
  }

  /** `assertValidComponent(c)`: a component must not be null. */
  function AssertValidComponent(c: Option<string>): (r: Outcome)
    ensures r.Pass? <==> c.Some?
    ensures r.Fail? ==> r.error == IllegalArgument
  {
    if c.Some? then Pass else Fail(IllegalArgument)
  }

  /** `checkClassInvariant()`: the delimiter's JavaScript length is 1,
      so it is one character of the Basic Multilingual Plane; a character
      above the plane has length 2 and fails. */
  function CheckClassInvariant(delimiter: string): (r: Outcome)
    ensures r.Pass? <==> Utf16.Length(delimiter) == 1
    ensures r.Pass? <==> |delimiter| == 1 && (delimiter[0] as int) < Utf16.FirstSupplementary
    ensures r.Fail? ==> r.error == InvalidState
  {
    Utf16.LengthOne(delimiter);
    if Utf16.Length(delimiter) == 1 then Pass else Fail(InvalidState)
  }

  /** The `AbstractName` constructor: an omitted delimiter defaults, a null
      one raises IllegalArgument, and the class invariant is checked on the
      stored delimiter (InvalidState unless its JavaScript length is 1).
      On success the delimiter character is returned. */
  function CheckedDelimiter(delimiter: Arg<string>): (r: Result<char>)
    ensures delimiter.Omitted? ==> r == Ok(Codec.DefaultDelimiter)
    ensures delimiter.Null? ==> r == Err(IllegalArgument)
    ensures delimiter.Given? ==>
              r == if Utf16.Length(delimiter.value) == 1 then Ok(delimiter.value[0]) else Err(InvalidState)
    ensures r.Ok? ==> (r.value as int) < Utf16.FirstSupplementary
  {
    if delimiter.Null? then Err(IllegalArgument)
    else
      var d := if delimiter.Omitted? then [Codec.DefaultDelimiter] else delimiter.value;
      match CheckClassInvariant(d)
      case Fail(e) => Err(e)
      case Pass => Ok(d[0])
  }

  /** A one-symbol delimiter above the Basic Multilingual Plane is two
      UTF-16 code units long and is refused. */
  lemma SupplementaryDelimiterRefused()
    ensures CheckedDelimiter(Given("\U{1F600}")) == Err(InvalidState)
  {
    Utf16.SupplementaryLength();
  }
}
