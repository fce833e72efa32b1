/** Shared vocabulary of the producer model: bytes, optional values, the
    two-way `Either` the fabricator answers with, the error taxonomy and the
    result type every fallible operation returns. */
module Common {

  /** One octet of a Node.js Buffer. */
  newtype byte = x: int | 0 <= x < 256

  type Bytes = seq<byte>

  datatype Option<+T> = None | Some(value: T)

  /** Error-first answer of a callback-style collaborator. */
  datatype Either<+L, +R> = Left(left: L) | Right(right: R)

  /** The ways a build can fail. `Assertion` is Node's `assert` throwing,
      `Range` is the RangeError of `String.prototype.repeat` with a negative
      count, `Type` is a property access on `undefined`, `Reported` is an
      error built by `wasReported`, `Io` is any filesystem failure and
      `Thrown` an error raised by a collaborator. */
  datatype Error =
    | Assertion(message: string)
    | Range
    | Type
    | Reported(message: string, detail: string)
    | Io(path: string)
    | Thrown(message: string)

  datatype Result<+T> = Ok(value: T) | Err(error: Error)

  /** The byte image of a string literal. Every literal of this model is
      ASCII, where this agrees with UTF-8; other characters are reduced
      modulo 256 (UTF-8 encoding is not part of the model). */
  function Latin1(s: string): (r: Bytes)
    ensures |r| == |s|
    ensures forall i :: 0 <= i < |s| ==> r[i] as int == s[i] as int % 256
  {
    seq(|s|, i requires 0 <= i < |s| => (s[i] as int % 256) as byte)
  }

  /** `n` copies of byte `b`: `padder.repeat(n)` for a one-character padder. */
  function Repeat(b: byte, n: nat): (r: Bytes)
    ensures |r| == n
    ensures forall i :: 0 <= i < n ==> r[i] == b
  {
    seq(n, _ => b)
  }
}
