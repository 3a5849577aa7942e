/** The readable binary file the decoder consumes (Python's `f`): fixed
    contents of which only the unread part matters. */
module Stream {
  import opened Bytes

  /** A value decoded from the front of a byte string, with the number of
      bytes it took. */
  datatype Decoded<T> = Decoded(value: T, consumed: nat)

  function Min(a: nat, b: nat): nat { if a <= b then a else b }

  /** What `f.read(n)` returns on the remaining bytes `s`: at most `n` bytes,
      fewer at the end of the file. */
  function Take(s: seq<byte>, n: nat): (chunk: seq<byte>)
    ensures |chunk| == Min(n, |s|)
    ensures chunk <= s
  {
    s[..Min(n, |s|)]
  }

  class ByteStream {
    /** The bytes not yet read. */
    var rest: seq<byte>

    constructor (bytes: seq<byte>)
      ensures rest == bytes
    {
      rest := bytes;
    }

    /** `f.read(n)`: the next `n` bytes, or all that are left when fewer
        remain; they are consumed. */
    method Read(n: nat) returns (chunk: seq<byte>)
      modifies this
      ensures chunk == Take(old(rest), n)
      ensures rest == old(rest)[|chunk|..]
    {
      chunk := Take(rest, n);
      rest := rest[|chunk|..];
    }
  }
}
