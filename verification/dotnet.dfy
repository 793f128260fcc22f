/** The slice of the .NET base library that the two JWK key classes lean on:
    nullable references, the exceptions they can raise, a few `String`
    methods and `Dictionary.TryGetValue`. Everything here is pure. */
module DotNet {

  /** An unsigned 8-bit value, the element type of `byte[]`. */
  type byte = b: int | 0 <= b < 256

  /** A reference that may be null: `None` stands for `null`. */
  datatype Option<+T> = None | Some(value: T)

  /** The exceptions the key classes let escape to their callers.
      `ArgumentNullException` is what `Enumerable.Contains` raises on a null
      sequence. */
  datatype Exception =
    | FormatException
    | NotSupportedException(algorithm: Option<string>)
    | ArgumentNullException
    | CryptographicException

  /** The outcome of a .NET call: a value, or the exception it threw. */
  datatype Result<+T> = Ok(value: T) | Throw(error: Exception) {

    predicate IsFailure() {
      Throw?
    }

    function PropagateFailure<U>(): Result<U>
      requires Throw?
    {
      Throw(error)
    }

    function Extract(): T
      requires Ok?
    {
      value
    }
  }

  /** `String.Replace(char oldChar, char newChar)`: every occurrence of
      `oldChar` becomes `newChar`, every other character stays where it is. */
  function Replace(s: string, oldChar: char, newChar: char): (r: string)
    ensures |r| == |s|
    ensures forall i :: 0 <= i < |s| ==> r[i] == (if s[i] == oldChar then newChar else s[i])
  {
    if s == [] then []
    else [if s[0] == oldChar then newChar else s[0]] + Replace(s[1..], oldChar, newChar)
  }

  /** `String.PadRight(totalWidth, paddingChar)`: the string itself when it is
      already `totalWidth` long or longer, otherwise the string followed by
      as many `paddingChar` as bring it to `totalWidth`. */
  function PadRight(s: string, totalWidth: nat, paddingChar: char): (r: string)
    ensures |r| == if totalWidth <= |s| then |s| else totalWidth
    ensures r[..|s|] == s
    ensures forall i :: |s| <= i < |r| ==> r[i] == paddingChar
  {
    if totalWidth <= |s| then s else s + seq(totalWidth - |s|, _ => paddingChar)
  }

  /** `String.TrimEnd(char trimChar)`: the longest prefix that does not end
      in `trimChar`; everything cut off is `trimChar`. */
  function TrimEnd(s: string, trimChar: char): (r: string)
    ensures r <= s
    ensures r == [] || r[|r| - 1] != trimChar
    ensures forall i :: |r| <= i < |s| ==> s[i] == trimChar
    decreases |s|
  {
    if s == [] || s[|s| - 1] != trimChar then s
    else TrimEnd(s[..|s| - 1], trimChar)
  }

  /** `Dictionary<string, V>.TryGetValue` on a non-null key. */
  function TryGetValue<V>(m: map<string, V>, key: string): (r: Option<V>)
    ensures r.Some? <==> key in m
    ensures r.Some? ==> m[key] == r.value
  {
    if key in m then Some(m[key]) else None
  }
}
