/**
 Value types shared by the text, stream and container models: fixed-width units,
 the error codes of the I/O layer and its two-sided results.
 */
module Core {
  type Byte = b: int | 0 <= b < 0x100
  type Char16 = u: int | 0 <= u < 0x1_0000
  type Char32 = c: int | 0 <= c < 0x1_0000_0000

  type Word64 = n: int | 0 <= n < 0x1_0000_0000_0000_0000

  const MAX_UINT32 := 0xFFFF_FFFF
  const MAX_UINT64 := 0xFFFF_FFFF_FFFF_FFFF

  datatype Option<+T> = None | Some(value: T)

  datatype ErrorCode =
    | Firmware | InvalidArgument | Closed | EndOfFile | UnexpectedEndOfFile | WouldBlock
    | NoProgress | Overflow | InvalidFormat | InvalidEncoding | OutOfMemory | Unsupported
    | Cancelled | Timeout

  datatype Result<+T> = Ok(value: T) | Err(code: ErrorCode)

  function Min(a: int, b: int): int { if a < b then a else b }
  function Max(a: int, b: int): int { if a > b then a else b }

  lemma MulMono(x: nat, y: nat, z: nat)
    ensures y <= z ==> x * y <= x * z
  {
  }

  /** `value`, `n` times. */
  function Fill<T>(value: T, n: nat): (s: seq<T>)
    ensures |s| == n && forall i :: 0 <= i < n ==> s[i] == value
  {
    seq(n, _ => value)
  }

  /** Concatenation of a list of chunks. */
  function Flatten<T>(chunks: seq<seq<T>>): seq<T> {
    if chunks == [] then [] else chunks[0] + Flatten(chunks[1..])
  }

  lemma {:induction false} FlattenAppend<T>(chunks: seq<seq<T>>, last: seq<T>)
    ensures Flatten(chunks + [last]) == Flatten(chunks) + last
  {
    if chunks == [] {
      assert chunks + [last] == [last] + [];
      assert Flatten<T>([]) == [];
    } else {
      assert (chunks + [last])[1..] == chunks[1..] + [last];
      FlattenAppend(chunks[1..], last);
    }
  }
}
