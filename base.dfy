/** Shared vocabulary: Java strings as sequences of UTF-16 code units,
    bytes, and the outcome types that stand for Java's null and exceptions. */
module Base {

  /** A Java `char`: one UTF-16 code unit. Dafny's `char` cannot hold a lone
      surrogate, so code units are modelled as integers. */
  type CodeUnit = x: int | 0 <= x < 0x1_0000

  /** A Java `String`. */
  type Str = seq<CodeUnit>

  /** An unsigned byte; Java's signed `byte` holds the same eight bits. */
  type Byte = x: int | 0 <= x < 0x100

  /** Java's `null` for a reference of type T. */
  datatype Option<+T> = None | Some(value: T)

  /** The exceptions the modelled code can raise. */
  datatype Error =
    | IllegalArgument         // IllegalArgumentException from the argument checks
    | NumberFormat            // NumberFormatException from Integer.parseInt
    | ArrayIndexOutOfBounds   // indexing an empty array returned by String.split

  /** A value, or the exception raised while computing it. */
  datatype Result<+T> = Success(value: T) | Failure(error: Error)

  /** The outcome of a `void` method: normal return, or an exception. */
  datatype Outcome = Pass | Fail(error: Error)

  /** A Dafny string literal of the Basic Multilingual Plane as a Java string. */
  function Lit(s: string): (r: Str)
    requires forall i | 0 <= i < |s| :: s[i] as int < 0x1_0000
    ensures |r| == |s|
    ensures forall i | 0 <= i < |s| :: r[i] == s[i] as int
  {
    seq(|s|, i requires 0 <= i < |s| => s[i] as int)
  }
}
